/**
 What the connection pool guarantees over whole runs: exclusive leases, exact
 counters, what a health check and the shutdown do, and when it is exhausted.
 */
module PoolTheorems {
  import opened Options
  import opened ConnPooling
  import opened PoolProtocol

  // Leases.

  /** A lease ends when the wrapper's `Close` has called `Put`. */
  predicate Live(w: Wrapper) {
    w.phase == Open || w.phase == Closing
  }

  function LiveWrappers(ws: map<nat, Wrapper>): set<nat> {
    set w | w in ws && Live(ws[w])
  }

  function LiveConns(ws: map<nat, Wrapper>): set<ConnId> {
    set w | w in ws && Live(ws[w]) :: ws[w].conn
  }

  /** The ids of the pooled connections marked in use. */
  function InUseIds(conns: seq<Conn>): set<ConnId> {
    if conns == [] then {}
    else
      var ids, c := InUseIds(conns[..|conns| - 1]), conns[|conns| - 1];
      if c.inUse then ids + {c.id} else ids
  }

  ghost predicate Exclusive(ws: map<nat, Wrapper>) {
    forall v, w :: v in ws && w in ws && v != w && Live(ws[v]) && Live(ws[w]) ==> ws[v].conn != ws[w].conn
  }

  ghost predicate LeaseInv(s: System) {
    && Exclusive(s.wrappers)
    && LiveConns(s.wrappers) <= s.pool.dialled
    && (!s.pool.closed ==>
          InUseIds(s.pool.conns) <= LiveConns(s.wrappers) <= InUseIds(s.pool.conns) + s.pool.dropped)
  }

  ghost predicate Inv(s: System) {
    PoolInv(s.pool) && LeaseInv(s)
  }

  lemma {:induction false} InUseInPool(conns: seq<Conn>)
    ensures InUseIds(conns) <= Ids(conns)
  {
    if conns != [] {
      InUseInPool(conns[..|conns| - 1]);
    }
  }

  lemma {:induction false} InUseCount(conns: seq<Conn>)
    requires DistinctIds(conns)
    ensures |InUseIds(conns)| == CountInUse(conns)
  {
    if conns != [] {
      InUseCount(conns[..|conns| - 1]);
      InUseInPool(conns[..|conns| - 1]);
      LastIsNew(conns);
    }
  }

  lemma {:induction false} InUseMember(conns: seq<Conn>, i: nat)
    requires DistinctIds(conns) && i < |conns|
    ensures conns[i].id in InUseIds(conns) <==> conns[i].inUse
  {
    var n := |conns| - 1;
    if i < n {
      InUseMember(conns[..n], i);
    } else {
      InUseInPool(conns[..n]);
      LastIsNew(conns);
    }
  }

  lemma {:induction false} InUseUpdate(conns: seq<Conn>, i: nat, c: Conn)
    requires DistinctIds(conns) && i < |conns| && c.id == conns[i].id
    ensures InUseIds(conns[i := c]) == if c.inUse then InUseIds(conns) + {c.id} else InUseIds(conns) - {c.id}
  {
    var n := |conns| - 1;
    if i < n {
      InUseUpdate(conns[..n], i, c);
      assert conns[i := c][..n] == conns[..n][i := c];
      assert conns[n].id != c.id;
    } else {
      assert conns[i := c][..n] == conns[..n];
      LastIsNew(conns);
      InUseInPool(conns[..n]);
    }
  }

  lemma InUseSnoc(conns: seq<Conn>, c: Conn)
    ensures InUseIds(conns + [c]) == InUseIds(conns) + if c.inUse then {c.id} else {}
  {
    assert (conns + [c])[..|conns|] == conns;
  }

  /** Adding a wrapper for a connection nobody leases. */
  lemma LiveConnsAdd(ws: map<nat, Wrapper>, w: nat, id: ConnId)
    requires w !in ws && Exclusive(ws) && id !in LiveConns(ws)
    ensures LiveConns(ws[w := Wrapper(id, Open)]) == LiveConns(ws) + {id}
    ensures Exclusive(ws[w := Wrapper(id, Open)])
  {
    var ws' := ws[w := Wrapper(id, Open)];
    forall x | x in LiveConns(ws) + {id}
      ensures x in LiveConns(ws')
    {
      if x == id {
        assert ws'[w].conn == id && Live(ws'[w]);
      } else {
        var v :| v in ws && Live(ws[v]) && ws[v].conn == x;
        assert v in ws' && Live(ws'[v]) && ws'[v].conn == x;
      }
    }
  }

  /** Ending a lease takes exactly its connection out of the leased ones. */
  lemma LiveConnsEnd(ws: map<nat, Wrapper>, w: nat, phase: Phase)
    requires w in ws && Exclusive(ws) && Live(ws[w]) && (phase == Returned || phase == Closed)
    ensures LiveConns(ws[w := ws[w].(phase := phase)]) == LiveConns(ws) - {ws[w].conn}
    ensures Exclusive(ws[w := ws[w].(phase := phase)])
  {
    var ws' := ws[w := ws[w].(phase := phase)];
    forall x | x in LiveConns(ws) - {ws[w].conn}
      ensures x in LiveConns(ws')
    {
      var v :| v in ws && Live(ws[v]) && ws[v].conn == x;
      assert v in ws' && Live(ws'[v]) && ws'[v].conn == x;
    }
  }

  lemma LiveConnsSame(ws: map<nat, Wrapper>, w: nat, phase: Phase)
    requires w in ws && Exclusive(ws) && Live(ws[w]) == Live(ws[w].(phase := phase))
    ensures LiveConns(ws[w := ws[w].(phase := phase)]) == LiveConns(ws)
    ensures Exclusive(ws[w := ws[w].(phase := phase)])
  {
    var ws' := ws[w := ws[w].(phase := phase)];
    forall x | x in LiveConns(ws)
      ensures x in LiveConns(ws')
    {
      var v :| v in ws && Live(ws[v]) && ws[v].conn == x;
      assert v in ws' && Live(ws'[v]) && ws'[v].conn == x;
    }
    forall x | x in LiveConns(ws')
      ensures x in LiveConns(ws)
    {
      var v :| v in ws' && Live(ws'[v]) && ws'[v].conn == x;
      assert v in ws && Live(ws[v]) && ws[v].conn == x;
    }
  }

  lemma UseOutcome(p: Pool, i: nat, now: int)
    requires PoolInv(p) && i < |p.conns| && !p.conns[i].inUse
    ensures InUseIds(p.conns[i := Used(p.conns[i], now)]) == InUseIds(p.conns) + {p.conns[i].id}
    ensures p.conns[i].id in Ids(p.conns) && p.conns[i].id !in InUseIds(p.conns) + p.dropped + p.shut
  {
    InUseMember(p.conns, i);
    IdsMember(p.conns, i);
    InUseUpdate(p.conns, i, Used(p.conns[i], now));
  }

  /** What a request may change: only an error leaves everything but the counters alone. */
  lemma GetShape(p: Pool, healthy: set<ConnId>, dial: Option<ConnId>, now: int)
    ensures var (q, r) := GetFrom(p, healthy, dial, now);
            if r.Got? then !p.closed && q == p.(conns := q.conns, current := q.current, stats := q.stats, dialled := q.dialled)
            else q == p.(stats := q.stats)
  {
  }

  /** The connection handed out was idle in the pool, or is new. */
  lemma GetPicks(p: Pool, healthy: set<ConnId>, dial: Option<ConnId>, now: int)
    requires PoolInv(p) && FreshDials([dial], p.dialled)
    ensures var (q, r) := GetFrom(p, healthy, dial, now);
            r.Got? ==>
              && r.id !in InUseIds(p.conns) + p.dropped + p.shut
              && InUseIds(q.conns) == InUseIds(p.conns) + {r.id}
              && q.dialled == p.dialled + {r.id}
  {
    var i := FirstUsable(p.conns, healthy);
    if p.closed {
    } else if i < |p.conns| {
      UseOutcome(p, i, now);
    } else if p.current < p.maxSize && dial.Some? {
      assert [dial][0].value !in p.dialled;
      InUseInPool(p.conns);
      InUseSnoc(p.conns, Used(NewConn(dial.value, now), now));
    }
  }

  /** A leased connection was leased by nobody, and becomes the only new one in use. */
  lemma GetOutcome(s: System, healthy: set<ConnId>, dial: Option<ConnId>, now: int)
    requires Inv(s) && FreshDials([dial], s.pool.dialled)
    ensures var (p, r) := GetFrom(s.pool, healthy, dial, now);
            if r.Got? then
              && !s.pool.closed
              && r.id !in LiveConns(s.wrappers) && r.id !in s.pool.shut
              && InUseIds(p.conns) == InUseIds(s.pool.conns) + {r.id}
              && p == s.pool.(conns := p.conns, current := p.current, stats := p.stats,
                              dialled := s.pool.dialled + {r.id})
            else
              p == s.pool.(stats := p.stats)
  {
    GetShape(s.pool, healthy, dial, now);
    GetPicks(s.pool, healthy, dial, now);
    hide GetFrom, PoolInv, InUseIds;
  }

  lemma GetKeepsInv(s: System, step: Step)
    requires Inv(s) && step.GetPooled? && Possible(s, step)
    ensures Inv(Next(s, step))
  {
    GetKeepsPoolInv(s.pool, step.healthy, step.dial, step.now);
    GetOutcome(s, step.healthy, step.dial, step.now);
    var (p, r) := GetFrom(s.pool, step.healthy, step.dial, step.now);
    if r.Got? {
      LiveConnsAdd(s.wrappers, step.w, r.id);
    }
  }

  lemma PutOutcome(p: Pool, id: ConnId, now: int)
    requires PoolInv(p)
    ensures var q := PutBack(p, id, now);
            && q == p.(conns := q.conns, stats := q.stats)
            && (!p.closed ==> InUseIds(q.conns) == InUseIds(p.conns) - {id})
  {
    var i := FirstWithId(p.conns, id);
    if p.closed {
    } else if i < |p.conns| {
      InUseMember(p.conns, i);
      if p.conns[i].inUse {
        InUseUpdate(p.conns, i, p.conns[i].(inUse := false, lastUsed := now));
      }
    } else if id in InUseIds(p.conns) {
      InUseInPool(p.conns);
      var j := IdsOrigin(p.conns, id);
      assert false;
    }
  }

  lemma ReturnKeepsInv(s: System, step: Step)
    requires Inv(s) && step.CloseReturn? && Possible(s, step)
    ensures Inv(Next(s, step))
  {
    var id := s.wrappers[step.w].conn;
    PutKeepsPoolInv(s.pool, id, step.now);
    PutOutcome(s.pool, id, step.now);
    LiveConnsEnd(s.wrappers, step.w, Returned);
  }

  lemma {:induction false} InUseSwept(conns: seq<Conn>, healthy: set<ConnId>)
    ensures InUseIds(conns) == InUseIds(Healthy(conns, healthy)) + Unhealthy(conns, healthy, true)
  {
    if conns != [] {
      InUseSwept(conns[..|conns| - 1], healthy);
      InUseSnoc(Healthy(conns[..|conns| - 1], healthy), conns[|conns| - 1]);
    }
  }

  lemma {:induction false} InUseAddIdle(conns: seq<Conn>, dials: seq<Option<ConnId>>, k: nat, now: int)
    requires k <= |dials| && forall i :: 0 <= i < k ==> dials[i].Some?
    ensures InUseIds(conns + NewConns(dials, k, now)) == InUseIds(conns)
  {
    if k == 0 {
      assert conns + NewConns(dials, k, now) == conns;
    } else {
      InUseAddIdle(conns, dials, k - 1, now);
      InUseSnoc(conns + NewConns(dials, k - 1, now), NewConn(dials[k - 1].value, now));
      assert conns + NewConns(dials, k, now)
          == conns + NewConns(dials, k - 1, now) + [NewConn(dials[k - 1].value, now)];
    }
  }

  /**
   A health round keeps exactly the healthy connections, in their order, followed
   by `k` fresh ones; it shuts the idle unhealthy ones, and only forgets leased ones.
   It ends below `minSize` only when a dial failed.
   */
  lemma HealthRoundOutcome(p: Pool, healthy: set<ConnId>, dials: seq<Option<ConnId>>, now: int) returns (k: nat)
    requires PoolInv(p) && !p.closed
    ensures k <= |dials| && forall i :: 0 <= i < k ==> dials[i].Some?
    ensures var q := HealthRound(p, healthy, dials, now);
            var added := NewConns(dials, k, now);
            && q.conns == Healthy(p.conns, healthy) + added
            && q.shut == p.shut + Unhealthy(p.conns, healthy, false)
            && q.dropped == p.dropped + Unhealthy(p.conns, healthy, true)
            && q.dialled == p.dialled + Ids(added)
            && q.current == p.current - |Unhealthy(p.conns, healthy, false)| + k
            && q.closed == p.closed && q.minSize == p.minSize && q.maxSize == p.maxSize
            && (q.current >= q.minSize || k == |dials| || dials[k].None?)
            && (k > 0 ==> q.current <= q.minSize)
    ensures Unhealthy(p.conns, healthy, false) !! InUseIds(p.conns)
  {
    SweepOutcome(p, p.conns, healthy);
    k := RefillOutcome(Sweep(p, p.conns, healthy), dials, now);
    IdleNotInUse(p.conns, healthy);
  }

  lemma {:induction false} IdleNotInUse(conns: seq<Conn>, healthy: set<ConnId>)
    requires DistinctIds(conns)
    ensures Unhealthy(conns, healthy, false) !! InUseIds(conns)
  {
    if conns != [] {
      var front := conns[..|conns| - 1];
      IdleNotInUse(front, healthy);
      LastIsNew(conns);
      InUseInPool(front);
      UnhealthyInPool(front, healthy, false);
    }
  }

  lemma CheckKeepsInv(s: System, step: Step)
    requires Inv(s) && step.Check? && Possible(s, step)
    ensures Inv(Next(s, step))
  {
    HealthRoundKeepsPoolInv(s.pool, step.healthy, step.dials, step.now);
    if !s.pool.closed {
      var k := HealthRoundOutcome(s.pool, step.healthy, step.dials, step.now);
      InUseSwept(s.pool.conns, step.healthy);
      InUseAddIdle(Healthy(s.pool.conns, step.healthy), step.dials, k, step.now);
    }
  }

  lemma NextKeepsInv(s: System, step: Step)
    requires Inv(s)
    ensures Inv(Next(s, step))
  {
    if Possible(s, step) {
      match step
      case GetPooled(_, _, _, _) => GetKeepsInv(s, step);
      case CloseBegin(w) => if s.wrappers[w].phase == Open { LiveConnsSame(s.wrappers, w, Closing); }
      case CloseReturn(_, _) => ReturnKeepsInv(s, step);
      case CloseEnd(w) => LiveConnsSame(s.wrappers, w, Closed);
      case Check(_, _, _) => CheckKeepsInv(s, step);
      case Shutdown => CloseKeepsPoolInv(s.pool);
    }
  }

  lemma {:induction false} ReachableInv(config: PoolConfig, dials: seq<Option<ConnId>>, now: int, steps: seq<Step>)
    requires FreshDials(dials, {})
    ensures Inv(Exec(Init(config, dials, now), steps))
  {
    if steps == [] {
      NewPoolOutcome(config, dials, now);
      var p := NewPool(config, dials, now).0;
      NewPoolIdle(config, dials, now);
    } else {
      ReachableInv(config, dials, now, steps[..|steps| - 1]);
      NextKeepsInv(Exec(Init(config, dials, now), steps[..|steps| - 1]), steps[|steps| - 1]);
    }
  }

  lemma NewPoolIdle(config: PoolConfig, dials: seq<Option<ConnId>>, now: int)
    requires FreshDials(dials, {})
    ensures InUseIds(NewPool(config, dials, now).0.conns) == {}
  {
    NewPoolOutcome(config, dials, now);
    var p := EmptyPool(config);
    PopulateShape(p, p.minSize, dials, now);
    PopulateIdle(p, p.minSize, dials, now);
    InUseCount(NewPool(config, dials, now).0.conns);
  }

  // Main results.

  lemma {:induction false} InjectiveCount(ws: map<nat, Wrapper>, live: set<nat>, ids: set<ConnId>)
    requires forall w :: w in live ==> w in ws && ws[w].conn in ids
    requires forall v, w :: v in live && w in live && v != w ==> ws[v].conn != ws[w].conn
    ensures |live| <= |ids|
    decreases |live|
  {
    if live != {} {
      var w :| w in live;
      InjectiveCount(ws, live - {w}, ids - {ws[w].conn});
    }
  }

  /**
   In every run: no connection is leased to two wrappers; while the pool is open
   every in-use pooled connection has exactly one live lease, every lease is on an
   in-use or a dropped connection, and at most `maxSize` leases are outstanding.
   */
  lemma LeasesExclusive(config: PoolConfig, dials: seq<Option<ConnId>>, now: int, steps: seq<Step>)
    requires FreshDials(dials, {})
    ensures var s := Exec(Init(config, dials, now), steps);
            && (forall v, w :: v in s.wrappers && w in s.wrappers && v != w && Live(s.wrappers[v]) && Live(s.wrappers[w])
                  ==> s.wrappers[v].conn != s.wrappers[w].conn)
            && (!s.pool.closed ==>
                  && |LiveWrappers(s.wrappers)| <= s.pool.stats.active <= s.pool.current <= s.pool.maxSize
                  && LiveConns(s.wrappers) !! s.pool.shut
                  && (forall i :: 0 <= i < |s.pool.conns| ==>
                        (s.pool.conns[i].inUse <==> s.pool.conns[i].id in LiveConns(s.wrappers)))
                  && (forall w :: w in LiveWrappers(s.wrappers) && s.wrappers[w].conn !in s.pool.dropped ==>
                        s.wrappers[w].conn in InUseIds(s.pool.conns)))
  {
    ReachableInv(config, dials, now, steps);
    var s := Exec(Init(config, dials, now), steps);
    if !s.pool.closed {
      LeaseCount(s);
      InUseInPool(s.pool.conns);
      forall i | 0 <= i < |s.pool.conns|
        ensures s.pool.conns[i].inUse <==> s.pool.conns[i].id in LiveConns(s.wrappers)
      {
        InUseMember(s.pool.conns, i);
        IdsMember(s.pool.conns, i);
      }
      forall w | w in LiveWrappers(s.wrappers)
        ensures s.wrappers[w].conn in LiveConns(s.wrappers)
      {
      }
    }
  }

  lemma LeaseCount(s: System)
    requires Inv(s) && !s.pool.closed
    ensures |LiveWrappers(s.wrappers)| <= s.pool.stats.active <= s.pool.current
  {
    var ids := InUseIds(s.pool.conns) + s.pool.dropped;
    forall w | w in LiveWrappers(s.wrappers)
      ensures s.wrappers[w].conn in ids
    {
      assert s.wrappers[w].conn in LiveConns(s.wrappers);
    }
    InjectiveCount(s.wrappers, LiveWrappers(s.wrappers), ids);
    InUseInPool(s.pool.conns);
    InUseCount(s.pool.conns);
    CountBounds(s.pool.conns);
  }

  /** The counters in every open state, and what the pool has dialled and shut. */
  lemma CountersConserved(config: PoolConfig, dials: seq<Option<ConnId>>, now: int, steps: seq<Step>)
    requires FreshDials(dials, {})
    ensures var p := Exec(Init(config, dials, now), steps).pool;
            !p.closed ==>
              && |p.dialled| - |p.shut| == p.current == |p.conns| + |p.dropped|
              && p.current <= p.maxSize
              && p.stats.active == CountInUse(p.conns) + |p.dropped|
              && p.stats.idle == |p.conns| - CountInUse(p.conns) - p.minSize
              && p.current == p.stats.active + p.stats.idle + p.minSize
  {
    ReachableInv(config, dials, now, steps);
    var p := Exec(Init(config, dials, now), steps).pool;
    if !p.closed {
      IdsCount(p.conns);
    }
  }

  lemma {:induction false} IdsCount(conns: seq<Conn>)
    requires DistinctIds(conns)
    ensures |Ids(conns)| == |conns|
  {
    if conns != [] {
      IdsCount(conns[..|conns| - 1]);
      LastIsNew(conns);
    }
  }

  // Losing leases.

  /** The leased connections that a health check of the open pool finds unhealthy. */
  function LostLeases(s: System, step: Step): set<ConnId> {
    if step.Check? && Possible(s, step) && !s.pool.closed then
      set c | c in s.pool.conns && c.inUse && c.id !in step.healthy :: c.id
    else {}
  }

  /** How many leases the checks of a run have lost. */
  function Losses(s: System, steps: seq<Step>): nat {
    if steps == [] then 0
    else
      var front := steps[..|steps| - 1];
      Losses(s, front) + |LostLeases(Exec(s, front), steps[|steps| - 1])|
  }

  /** No check of the run finds a leased connection unhealthy. */
  predicate NoLeaseLost(s: System, steps: seq<Step>) {
    steps != [] ==>
      && NoLeaseLost(s, steps[..|steps| - 1])
      && LostLeases(Exec(s, steps[..|steps| - 1]), steps[|steps| - 1]) == {}
  }

  lemma {:induction false} UnhealthyMembers(conns: seq<Conn>, healthy: set<ConnId>, inUse: bool)
    ensures Unhealthy(conns, healthy, inUse) == set c | c in conns && c.inUse == inUse && c.id !in healthy :: c.id
  {
    if conns != [] {
      var front, last := conns[..|conns| - 1], conns[|conns| - 1];
      UnhealthyMembers(front, healthy, inUse);
      assert forall c :: c in conns <==> c in front || c == last;
    }
  }

  lemma CheckDrops(p: Pool, healthy: set<ConnId>, dials: seq<Option<ConnId>>, now: int)
    requires PoolInv(p)
    ensures var lost := set c | c in p.conns && c.inUse && c.id !in healthy :: c.id;
            if p.closed then HealthRound(p, healthy, dials, now) == p
            else HealthRound(p, healthy, dials, now).dropped == p.dropped + lost && p.dropped !! lost
  {
    if !p.closed {
      var k := HealthRoundOutcome(p, healthy, dials, now);
      UnhealthyMembers(p.conns, healthy, true);
      UnhealthyInPool(p.conns, healthy, true);
      hide HealthRound, Unhealthy, Healthy, InUseIds, Ids, CountersExact;
    }
  }

  /** A step drops exactly the leases that it loses. */
  lemma NextDrops(s: System, step: Step)
    requires PoolInv(s.pool)
    ensures Next(s, step).pool.dropped == s.pool.dropped + LostLeases(s, step)
    ensures s.pool.dropped !! LostLeases(s, step)
  {
    hide PoolInv, HealthRound, GetFrom;
    match step
    case GetPooled(_, healthy, dial, now) => GetShape(s.pool, healthy, dial, now);
    case Check(healthy, dials, now) => CheckDrops(s.pool, healthy, dials, now);
    case _ =>
  }

  /** Over a run the dropped connections are exactly the leases lost. */
  lemma {:induction false} DroppedIsLost(config: PoolConfig, dials: seq<Option<ConnId>>, now: int, steps: seq<Step>)
    requires FreshDials(dials, {})
    ensures var s := Init(config, dials, now);
            && |Exec(s, steps).pool.dropped| == Losses(s, steps)
            && (Exec(s, steps).pool.dropped == {} <==> NoLeaseLost(s, steps))
  {
    if steps == [] {
      NewPoolOutcome(config, dials, now);
    } else {
      var s, front, last := Init(config, dials, now), steps[..|steps| - 1], steps[|steps| - 1];
      DroppedIsLost(config, dials, now, front);
      ReachableInv(config, dials, now, front);
      NextDrops(Exec(s, front), last);
      hide Next, LostLeases, Inv;
      var dropped, lost := Exec(s, front).pool.dropped, LostLeases(Exec(s, front), last);
      assert |dropped + lost| == |dropped| + |lost|;
    }
  }

  /**
   The published counters of an open pool tell the truth about its connections in
   exactly these cases: totals and leases as long as no check found a leased
   connection unhealthy, idle ones when the minimum size is zero.
   */
  lemma CountersTruthful(config: PoolConfig, dials: seq<Option<ConnId>>, now: int, steps: seq<Step>)
    requires FreshDials(dials, {})
    ensures var s := Init(config, dials, now);
            var p := Exec(s, steps).pool;
            !p.closed ==>
              && (Published(p).total == |p.conns| <==> NoLeaseLost(s, steps))
              && (Published(p).active == CountInUse(p.conns) <==> NoLeaseLost(s, steps))
              && (Published(p).idle == |p.conns| - CountInUse(p.conns) <==> p.minSize == 0)
  {
    ReachableInv(config, dials, now, steps);
    DroppedIsLost(config, dials, now, steps);
    hide Exec, NoLeaseLost, LeaseInv, Accounted, Init;
  }

  /** A health check never shuts a leased connection. */
  lemma CheckSparesLeases(s: System, step: Step)
    requires Inv(s) && step.Check?
    ensures (Next(s, step).pool.shut - s.pool.shut) !! LiveConns(s.wrappers)
  {
    if Possible(s, step) && !s.pool.closed {
      var k := HealthRoundOutcome(s.pool, step.healthy, step.dials, step.now);
      UnhealthyInPool(s.pool.conns, step.healthy, false);
    }
  }

  /** Once closed, the pool never changes: no later step dials, leases, returns or shuts. */
  lemma {:induction false} ClosedIsFinal(s: System, steps: seq<Step>)
    requires s.pool.closed
    ensures Exec(s, steps).pool == s.pool
    ensures Exec(s, steps).wrappers.Keys == s.wrappers.Keys
  {
    if steps != [] {
      ClosedIsFinal(s, steps[..|steps| - 1]);
    }
  }

  /**
   After `Close` every connection ever dialled is shut, except the lost leases; so
   all are shut exactly when no check found a leased connection unhealthy.
   */
  lemma ShutdownShutsAllButDropped(config: PoolConfig, dials: seq<Option<ConnId>>, now: int, steps: seq<Step>)
    requires FreshDials(dials, {})
    ensures var s := Init(config, dials, now);
            var p := Exec(s, steps).pool;
            p.closed ==>
              && p.conns == [] && p.dialled == p.shut + p.dropped && p.shut !! p.dropped
              && |p.dialled| - |p.shut| == Losses(s, steps)
              && (p.dialled == p.shut <==> NoLeaseLost(s, steps))
  {
    ReachableInv(config, dials, now, steps);
    DroppedIsLost(config, dials, now, steps);
    hide Exec, NoLeaseLost, LeaseInv, Init;
  }

  /** Every request an open pool has counted became a wrapper or an error. */
  lemma {:induction false} RequestsConserved(config: PoolConfig, dials: seq<Option<ConnId>>, now: int, steps: seq<Step>)
    requires FreshDials(dials, {})
    ensures var s := Exec(Init(config, dials, now), steps);
            s.pool.stats.requests == |s.wrappers| + s.pool.stats.errors
  {
    if steps == [] {
      PopulateShape(EmptyPool(config), EmptyPool(config).minSize, dials, now);
    } else {
      RequestsConserved(config, dials, now, steps[..|steps| - 1]);
      RequestsStep(Exec(Init(config, dials, now), steps[..|steps| - 1]), steps[|steps| - 1]);
    }
  }

  lemma RequestsStep(s: System, step: Step)
    requires s.pool.stats.requests == |s.wrappers| + s.pool.stats.errors
    ensures Next(s, step).pool.stats.requests == |Next(s, step).wrappers| + Next(s, step).pool.stats.errors
  {
    if step.Check? && !s.pool.closed {
      SweepKeepsRequests(s.pool, s.pool.conns, step.healthy);
      var k := RefillOutcome(Sweep(s.pool, s.pool.conns, step.healthy), step.dials, step.now);
    }
    if step.CloseBegin? && Possible(s, step) {
      assert Next(s, step).wrappers.Keys == s.wrappers.Keys;
    }
    if (step.CloseReturn? || step.CloseEnd?) && Possible(s, step) {
      assert Next(s, step).wrappers.Keys == s.wrappers.Keys;
    }
  }

  lemma {:induction false} SweepKeepsRequests(p: Pool, conns: seq<Conn>, healthy: set<ConnId>)
    ensures Sweep(p, conns, healthy).stats.requests == p.stats.requests
    ensures Sweep(p, conns, healthy).stats.errors == p.stats.errors
  {
    if conns != [] {
      SweepKeepsRequests(p, conns[..|conns| - 1], healthy);
    }
  }

  // The wrapper.

  function Rank(phase: Phase): nat {
    match phase
    case Open => 0
    case Closing => 1
    case Returned => 2
    case Closed => 3
  }

  lemma {:induction false} PhasesOnlyAdvance(s: System, steps: seq<Step>, w: nat)
    requires w in s.wrappers
    ensures var s' := Exec(s, steps);
            && w in s'.wrappers && s'.wrappers[w].conn == s.wrappers[w].conn
            && Rank(s'.wrappers[w].phase) >= Rank(s.wrappers[w].phase)
  {
    if steps != [] {
      PhasesOnlyAdvance(s, steps[..|steps| - 1], w);
    }
  }

  /** Closing a wrapper again changes nothing, however often and whenever it happens. */
  lemma RepeatedCloseIsNoOp(s: System, steps: seq<Step>, w: nat, step: Step)
    requires w in s.wrappers && s.wrappers[w].phase == Closed
    requires step == CloseBegin(w) || (step.CloseReturn? && step.w == w) || step == CloseEnd(w)
    ensures Next(Exec(s, steps), step) == Exec(s, steps)
  {
    PhasesOnlyAdvance(s, steps, w);
  }

  // Exhaustion.

  predicate LeaseSucceeds(s: System, step: Step) {
    step.GetPooled? && Possible(s, step) && GetFrom(s.pool, step.healthy, step.dial, step.now).1.Got?
  }

  lemma CheckKeepsDropped(p: Pool, healthy: set<ConnId>, dials: seq<Option<ConnId>>, now: int)
    requires PoolInv(p)
    ensures var q := HealthRound(p, healthy, dials, now); p.dropped <= q.dropped && q.maxSize == p.maxSize
  {
    if !p.closed {
      var k := HealthRoundOutcome(p, healthy, dials, now);
    }
  }

  lemma NextKeepsDropped(s: System, step: Step)
    requires PoolInv(s.pool)
    ensures s.pool.dropped <= Next(s, step).pool.dropped && s.pool.maxSize == Next(s, step).pool.maxSize
  {
    hide PoolInv, HealthRound, GetFrom;
    match step
    case GetPooled(_, healthy, dial, now) => GetShape(s.pool, healthy, dial, now);
    case Check(healthy, dials, now) => CheckKeepsDropped(s.pool, healthy, dials, now);
    case _ =>
  }

  lemma {:induction false} ExhaustedForever(s: System, steps: seq<Step>)
    requires Inv(s) && |s.pool.dropped| == s.pool.maxSize
    ensures var s' := Exec(s, steps);
            && Inv(s') && s'.pool.maxSize == s.pool.maxSize && s.pool.dropped <= s'.pool.dropped
            && (forall step :: !LeaseSucceeds(s', step))
  {
    var s' := Exec(s, steps);
    if steps != [] {
      ExhaustedForever(s, steps[..|steps| - 1]);
      NextKeepsInv(Exec(s, steps[..|steps| - 1]), steps[|steps| - 1]);
      NextKeepsDropped(Exec(s, steps[..|steps| - 1]), steps[|steps| - 1]);
    }
    assert |s'.pool.dropped| == |s.pool.dropped| + |s'.pool.dropped - s.pool.dropped|;
  }

  lemma {:induction false} Above(ws: set<nat>) returns (m: nat)
    ensures forall w :: w in ws ==> w < m
  {
    m := 0;
    if ws != {} {
      var w :| w in ws;
      var n := Above(ws - {w});
      m := if n <= w then w + 1 else n;
      assert forall v :: v in ws ==> v == w || v in ws - {w};
    }
  }

  /** With room for one more connection, a dial leases. */
  lemma LeaseByDialling(s: System) returns (step: Step)
    requires Inv(s) && !s.pool.closed && s.pool.current < s.pool.maxSize
    ensures LeaseSucceeds(s, step)
  {
    var w := Above(s.wrappers.Keys);
    var id := Above(s.pool.dialled);
    step := GetPooled(w, {}, Some(id), 0);
    assert w !in s.wrappers;
  }

  /** An idle pooled connection is leased when it is healthy. */
  lemma LeaseIdle(s: System, i: nat) returns (step: Step)
    requires Inv(s) && !s.pool.closed && i < |s.pool.conns| && !s.pool.conns[i].inUse
    ensures LeaseSucceeds(s, step)
  {
    var w := Above(s.wrappers.Keys);
    step := GetPooled(w, {s.pool.conns[i].id}, None, 0);
    assert w !in s.wrappers;
    assert Usable(s.pool.conns[i], step.healthy);
  }

  lemma ExecTwo(s: System, a: Step, b: Step)
    ensures Exec(s, [a, b]) == Next(Next(s, a), b)
    ensures Exec(s, [a]) == Next(s, a)
  {
    assert [a, b][..1] == [a] && [a][..0] == [];
    assert Exec(s, [a]) == Next(Exec(s, []), a);
  }

  /** A leased pooled connection becomes idle when its wrapper is closed. */
  lemma CloseFreesConn(s: System) returns (steps: seq<Step>)
    requires Inv(s) && !s.pool.closed && s.pool.conns != [] && s.pool.conns[0].inUse
    ensures var s' := Exec(s, steps);
            && Inv(s') && !s'.pool.closed && s'.pool.conns != [] && !s'.pool.conns[0].inUse
  {
    var id := s.pool.conns[0].id;
    InUseMember(s.pool.conns, 0);
    var w :| w in s.wrappers && Live(s.wrappers[w]) && s.wrappers[w].conn == id;
    var s1 := Next(s, CloseBegin(w));
    NextKeepsInv(s, CloseBegin(w));
    assert s1.pool == s.pool && s1.wrappers[w] == Wrapper(id, Closing);
    assert FirstWithId(s.pool.conns, id) == 0;
    NextKeepsInv(s1, CloseReturn(w, 0));
    assert !PutBack(s.pool, id, 0).conns[0].inUse;
    hide PoolInv, LeaseInv, InUseIds;
    ExecTwo(s, CloseBegin(w), CloseReturn(w, 0));
    steps := [CloseBegin(w), CloseReturn(w, 0)];
  }

  /** While fewer than `maxSize` connections were dropped, some continuation leases again. */
  lemma CanLeaseAgain(s: System) returns (steps: seq<Step>, step: Step)
    requires Inv(s) && !s.pool.closed && |s.pool.dropped| < s.pool.maxSize
    ensures LeaseSucceeds(Exec(s, steps), step)
  {
    steps := [];
    if s.pool.current < s.pool.maxSize {
      step := LeaseByDialling(s);
    } else if !s.pool.conns[0].inUse {
      step := LeaseIdle(s, 0);
    } else {
      steps := CloseFreesConn(s);
      step := LeaseIdle(Exec(s, steps), 0);
    }
  }

  predicate LeasesAfter(s: System, steps: seq<Step>, step: Step) {
    LeaseSucceeds(Exec(s, steps), step)
  }

  /**
   Connections dropped while leased are never given back to the limit: the pool
   can never lease again exactly when `maxSize` of them have been dropped.
   */
  lemma ExhaustedIffAllDropped(s: System)
    requires Inv(s) && !s.pool.closed
    ensures (forall steps, step :: !LeasesAfter(s, steps, step)) <==> |s.pool.dropped| == s.pool.maxSize
  {
    if |s.pool.dropped| == s.pool.maxSize {
      forall steps, step
        ensures !LeasesAfter(s, steps, step)
      {
        ExhaustedForever(s, steps);
      }
    } else {
      var steps, step := CanLeaseAgain(s);
      assert LeasesAfter(s, steps, step);
    }
  }

  /** In terms of the run: it is exhausted exactly when its checks have found `maxSize` leases unhealthy. */
  lemma ExhaustedIffLeasesLost(config: PoolConfig, dials: seq<Option<ConnId>>, now: int, steps: seq<Step>)
    requires FreshDials(dials, {}) && !Exec(Init(config, dials, now), steps).pool.closed
    ensures var s := Init(config, dials, now);
            (forall more, step :: !LeasesAfter(Exec(s, steps), more, step))
            <==> Losses(s, steps) == Exec(s, steps).pool.maxSize
  {
    ReachableInv(config, dials, now, steps);
    DroppedIsLost(config, dials, now, steps);
    ExhaustedIffAllDropped(Exec(Init(config, dials, now), steps));
  }

  /** One failed health check during a lease is enough to exhaust a pool of one, although the lease is returned. */
  lemma LeakExample()
    ensures var s := Exec(Init(PoolConfig(1, 0, 0), [], 0),
                          [GetPooled(0, {}, Some(7), 0), Check({}, [], 0), CloseBegin(0), CloseReturn(0, 0), CloseEnd(0)]);
            && !s.pool.closed && s.wrappers[0 := Wrapper(7, Closed)] == s.wrappers
            && s.pool.conns == [] && s.pool.shut == {} && |s.pool.dropped| == s.pool.maxSize == 1
  {
    var s0 := Init(PoolConfig(1, 0, 0), [], 0);
    var a, b, c, d, e := GetPooled(0, {}, Some(7), 0), Check({}, [], 0), CloseBegin(0), CloseReturn(0, 0), CloseEnd(0);
    assert [a, b, c, d, e][..4] == [a, b, c, d] && [a, b, c, d][..3] == [a, b, c] && [a, b, c][..2] == [a, b];
    ExecTwo(s0, a, b);
    var s1 := Next(s0, a);
    assert s1.pool.conns == [Used(NewConn(7, 0), 0)];
    var s2 := Next(s1, b);
    assert s1.pool.conns[..0] == [];
    assert Sweep(s1.pool, s1.pool.conns, {}) == SweepOne(s1.pool.(conns := []), s1.pool.conns[0], {});
    assert s2.pool.dropped == {7};
    assert Exec(s0, [a, b, c]) == Next(Exec(s0, [a, b]), c);
    assert Exec(s0, [a, b, c, d]) == Next(Exec(s0, [a, b, c]), d);
  }
}
