/**
 Runs of the connection pool: clients lease with `GetPooled` and give back with
 the wrapper's `Close`, while health checks and the shutdown happen at any time
 (client/pool.go:103-304). Every section under the pool's lock is one step; the
 wrapper's `Close` is three, because it holds only the wrapper's own lock.
 */
module PoolProtocol {
  import opened Options
  import opened ConnPooling

  /** `Closing`: its lock is held and `Put` is still to come. `Returned`: `Put` has returned. */
  datatype Phase = Open | Closing | Returned | Closed

  datatype Wrapper = Wrapper(conn: ConnId, phase: Phase)

  datatype System = System(pool: Pool, wrappers: map<nat, Wrapper>)

  datatype Step =
    | GetPooled(w: nat, healthy: set<ConnId>, dial: Option<ConnId>, now: int)
    | CloseBegin(w: nat)
    | CloseReturn(w: nat, now: int)
    | CloseEnd(w: nat)
    | Check(healthy: set<ConnId>, dials: seq<Option<ConnId>>, now: int)
    | Shutdown

  /** Dialling makes connections that did not exist before. */
  predicate FreshDials(dials: seq<Option<ConnId>>, dialled: set<ConnId>) {
    && (forall i :: 0 <= i < |dials| && dials[i].Some? ==> dials[i].value !in dialled)
    && (forall i, j :: 0 <= i < j < |dials| && dials[i].Some? && dials[j].Some? ==> dials[i].value != dials[j].value)
  }

  predicate Possible(s: System, step: Step) {
    match step
    case GetPooled(w, _, dial, _) => w !in s.wrappers && FreshDials([dial], s.pool.dialled)
    case CloseBegin(w) => w in s.wrappers && (s.wrappers[w].phase == Open || s.wrappers[w].phase == Closed)
    case CloseReturn(w, _) => w in s.wrappers && s.wrappers[w].phase == Closing
    case CloseEnd(w) => w in s.wrappers && s.wrappers[w].phase == Returned
    case Check(_, dials, _) => FreshDials(dials, s.pool.dialled)
    case Shutdown => true
  }

  function Enter(s: System, w: nat, phase: Phase): System
    requires w in s.wrappers
  {
    s.(wrappers := s.wrappers[w := s.wrappers[w].(phase := phase)])
  }

  /** One step; a step that is not possible leaves the system as it is. */
  function Next(s: System, step: Step): System {
    if !Possible(s, step) then s
    else
      match step
      case GetPooled(w, healthy, dial, now) =>
        var (p, r) := GetFrom(s.pool, healthy, dial, now);
        System(p, if r.Got? then s.wrappers[w := Wrapper(r.id, Open)] else s.wrappers)
      case CloseBegin(w) => if s.wrappers[w].phase == Open then Enter(s, w, Closing) else s
      case CloseReturn(w, now) => Enter(s, w, Returned).(pool := PutBack(s.pool, s.wrappers[w].conn, now))
      case CloseEnd(w) => Enter(s, w, Closed)
      case Check(healthy, dials, now) => s.(pool := HealthRound(s.pool, healthy, dials, now))
      case Shutdown => s.(pool := ClosePool(s.pool))
  }

  function Exec(s: System, steps: seq<Step>): System {
    if steps == [] then s else Next(Exec(s, steps[..|steps| - 1]), steps[|steps| - 1])
  }

  function Init(config: PoolConfig, dials: seq<Option<ConnId>>, now: int): System {
    System(NewPool(config, dials, now).0, map[])
  }

  // The pool's own invariant.

  function CountInUse(conns: seq<Conn>): nat {
    if conns == [] then 0
    else CountInUse(conns[..|conns| - 1]) + if conns[|conns| - 1].inUse then 1 else 0
  }

  ghost predicate DistinctIds(conns: seq<Conn>) {
    forall i, j :: 0 <= i < j < |conns| ==> conns[i].id != conns[j].id
  }

  /** Every connection ever dialled is in exactly one place: pooled, shut, or dropped while leased. */
  ghost predicate Accounted(p: Pool) {
    && DistinctIds(p.conns)
    && Ids(p.conns) !! p.shut !! p.dropped
    && p.dialled == Ids(p.conns) + p.shut + p.dropped
  }

  ghost predicate CountersExact(p: Pool) {
    && p.current == |p.conns| + |p.dropped|
    && p.stats.active == CountInUse(p.conns) + |p.dropped|
    && p.stats.idle == |p.conns| - CountInUse(p.conns) - p.minSize
  }

  ghost predicate PoolInv(p: Pool) {
    && Accounted(p)
    && 0 <= p.minSize <= p.maxSize && 0 < p.maxSize
    && if p.closed then p.conns == [] && p.current == 0 else CountersExact(p) && p.current <= p.maxSize
  }

  lemma CountSnoc(conns: seq<Conn>, c: Conn)
    ensures CountInUse(conns + [c]) == CountInUse(conns) + if c.inUse then 1 else 0
    ensures Ids(conns + [c]) == Ids(conns) + {c.id}
  {
    assert (conns + [c])[..|conns|] == conns;
  }

  lemma {:induction false} IdsMember(conns: seq<Conn>, i: nat)
    requires i < |conns|
    ensures conns[i].id in Ids(conns)
  {
    if i < |conns| - 1 {
      IdsMember(conns[..|conns| - 1], i);
    }
  }

  lemma {:induction false} IdsOrigin(conns: seq<Conn>, x: ConnId) returns (i: nat)
    requires x in Ids(conns)
    ensures i < |conns| && conns[i].id == x
  {
    if conns[|conns| - 1].id == x {
      i := |conns| - 1;
    } else {
      i := IdsOrigin(conns[..|conns| - 1], x);
    }
  }

  /** Connections with an id not in the pool can be added. */
  lemma DistinctExtended(conns: seq<Conn>, c: Conn)
    requires DistinctIds(conns) && c.id !in Ids(conns)
    ensures DistinctIds(conns + [c])
  {
    forall i | 0 <= i < |conns|
      ensures conns[i].id != c.id
    {
      IdsMember(conns, i);
    }
  }

  lemma LastIsNew(conns: seq<Conn>)
    requires DistinctIds(conns) && conns != []
    ensures conns[|conns| - 1].id !in Ids(conns[..|conns| - 1])
  {
    var x := conns[|conns| - 1].id;
    if x in Ids(conns[..|conns| - 1]) {
      var i := IdsOrigin(conns[..|conns| - 1], x);
    }
  }

  lemma {:induction false} CountUpdate(conns: seq<Conn>, i: nat, c: Conn)
    requires i < |conns| && c.id == conns[i].id
    ensures CountInUse(conns[i := c])
            == CountInUse(conns) + (if c.inUse then 1 else 0) - (if conns[i].inUse then 1 else 0)
    ensures Ids(conns[i := c]) == Ids(conns)
  {
    var n := |conns| - 1;
    if i < n {
      CountUpdate(conns[..n], i, c);
      assert conns[i := c][..n] == conns[..n][i := c];
    } else {
      assert conns[i := c][..n] == conns[..n];
    }
  }

  lemma {:induction false} CountBounds(conns: seq<Conn>)
    ensures CountInUse(conns) <= |conns|
  {
    if conns != [] {
      CountBounds(conns[..|conns| - 1]);
    }
  }

  lemma UseKeepsPoolInv(p: Pool, i: nat, now: int)
    requires PoolInv(p) && i < |p.conns| && !p.conns[i].inUse
    ensures PoolInv(p.(conns := p.conns[i := Used(p.conns[i], now)],
                       stats := p.stats.(active := p.stats.active + 1, idle := p.stats.idle - 1)))
  {
    CountUpdate(p.conns, i, Used(p.conns[i], now));
  }

  /** A fresh connection joins the pool, in use or idle. */
  lemma JoinKeepsPoolInv(p: Pool, c: Conn)
    requires PoolInv(p) && !p.closed && p.current < p.maxSize && c.id !in p.dialled
    ensures PoolInv(p.(conns := p.conns + [c], current := p.current + 1, dialled := p.dialled + {c.id},
                       stats := if c.inUse then p.stats.(active := p.stats.active + 1)
                                else p.stats.(idle := p.stats.idle + 1)))
  {
    CountSnoc(p.conns, c);
    DistinctExtended(p.conns, c);
  }

  lemma GetKeepsPoolInv(p: Pool, healthy: set<ConnId>, dial: Option<ConnId>, now: int)
    requires PoolInv(p) && FreshDials([dial], p.dialled)
    ensures PoolInv(GetFrom(p, healthy, dial, now).0)
  {
    var q := p.(stats := p.stats.(requests := p.stats.requests + 1));
    var i := FirstUsable(p.conns, healthy);
    if p.closed {
    } else if i < |p.conns| {
      UseKeepsPoolInv(q, i, now);
    } else if p.current < p.maxSize && dial.Some? {
      assert [dial][0].value !in p.dialled;
      JoinKeepsPoolInv(q, Used(NewConn(dial.value, now), now));
    }
  }

  lemma PutKeepsPoolInv(p: Pool, id: ConnId, now: int)
    requires PoolInv(p)
    ensures PoolInv(PutBack(p, id, now))
  {
    var i := FirstWithId(p.conns, id);
    if i < |p.conns| {
      CountUpdate(p.conns, i, p.conns[i].(inUse := false, lastUsed := now));
    }
  }

  lemma CloseKeepsPoolInv(p: Pool)
    requires PoolInv(p)
    ensures PoolInv(ClosePool(p))
  {
  }

  // Health checks.

  function Healthy(conns: seq<Conn>, healthy: set<ConnId>): seq<Conn> {
    if conns == [] then []
    else
      var kept, c := Healthy(conns[..|conns| - 1], healthy), conns[|conns| - 1];
      if c.id in healthy then kept + [c] else kept
  }

  function Unhealthy(conns: seq<Conn>, healthy: set<ConnId>, inUse: bool): set<ConnId> {
    if conns == [] then {}
    else
      var ids, c := Unhealthy(conns[..|conns| - 1], healthy, inUse), conns[|conns| - 1];
      if c.id !in healthy && c.inUse == inUse then ids + {c.id} else ids
  }

  lemma {:induction false} UnhealthyInPool(conns: seq<Conn>, healthy: set<ConnId>, inUse: bool)
    ensures Unhealthy(conns, healthy, inUse) <= Ids(conns)
  {
    if conns != [] {
      UnhealthyInPool(conns[..|conns| - 1], healthy, inUse);
    }
  }

  /** The pool after a pass that kept `kept`, shut `idle` and forgot `leased`. */
  function SweptTo(p: Pool, kept: seq<Conn>, idle: set<ConnId>, leased: set<ConnId>): Pool {
    p.(conns := kept, current := p.current - |idle|, stats := p.stats.(idle := p.stats.idle - |idle|),
       shut := p.shut + idle, dropped := p.dropped + leased)
  }

  lemma SweepOneOutcome(p: Pool, kept: seq<Conn>, idle: set<ConnId>, leased: set<ConnId>, c: Conn, healthy: set<ConnId>)
    requires c.id !in idle
    ensures SweepOne(SweptTo(p, kept, idle, leased), c, healthy)
            == if c.id in healthy then SweptTo(p, kept + [c], idle, leased)
               else if !c.inUse then SweptTo(p, kept, idle + {c.id}, leased)
               else SweptTo(p, kept, idle, leased + {c.id})
  {
  }

  lemma SweptToNothing(p: Pool)
    ensures SweptTo(p, [], {}, {}) == p.(conns := [])
  {
  }

  /** What the pass does: keep the healthy in order, shut exactly the idle unhealthy, forget the leased. */
  lemma {:induction false} SweepOutcome(p: Pool, conns: seq<Conn>, healthy: set<ConnId>)
    requires DistinctIds(conns)
    ensures Sweep(p, conns, healthy)
            == SweptTo(p, Healthy(conns, healthy), Unhealthy(conns, healthy, false), Unhealthy(conns, healthy, true))
  {
    hide SweptTo, SweepOne;
    if conns == [] {
      SweptToNothing(p);
    } else {
      var front, c := conns[..|conns| - 1], conns[|conns| - 1];
      SweepOutcome(p, front, healthy);
      LastIsNew(conns);
      UnhealthyInPool(front, healthy, false);
      SweepOneOutcome(p, Healthy(front, healthy), Unhealthy(front, healthy, false), Unhealthy(front, healthy, true), c, healthy);
    }
  }

  lemma {:induction false} HealthyMembers(conns: seq<Conn>, healthy: set<ConnId>)
    requires DistinctIds(conns)
    ensures var kept := Healthy(conns, healthy);
            && DistinctIds(kept)
            && (forall c :: c in kept <==> c in conns && c.id in healthy)
  {
    if conns != [] {
      var front, c := conns[..|conns| - 1], conns[|conns| - 1];
      HealthyMembers(front, healthy);
      assert conns == front + [c];
      assert forall d :: d in Healthy(front, healthy) ==> d in front;
    }
  }

  lemma {:induction false} HealthyUnion(conns: seq<Conn>, healthy: set<ConnId>)
    ensures Ids(Healthy(conns, healthy)) + Unhealthy(conns, healthy, false) + Unhealthy(conns, healthy, true) == Ids(conns)
  {
    if conns != [] {
      HealthyUnion(conns[..|conns| - 1], healthy);
      CountSnoc(Healthy(conns[..|conns| - 1], healthy), conns[|conns| - 1]);
    }
  }

  lemma {:induction false} HealthyDisjoint(conns: seq<Conn>, healthy: set<ConnId>)
    requires DistinctIds(conns)
    ensures Ids(Healthy(conns, healthy)) !! Unhealthy(conns, healthy, false) !! Unhealthy(conns, healthy, true)
  {
    if conns != [] {
      var front, c := conns[..|conns| - 1], conns[|conns| - 1];
      HealthyDisjoint(front, healthy);
      LastIsNew(conns);
      HealthyUnion(front, healthy);
      CountSnoc(Healthy(front, healthy), c);
      assert c.id !in Ids(Healthy(front, healthy));
      hide Ids;
    }
  }

  lemma {:induction false} HealthyCounts(conns: seq<Conn>, healthy: set<ConnId>)
    requires DistinctIds(conns)
    ensures var kept := Healthy(conns, healthy);
            var idle, leased := Unhealthy(conns, healthy, false), Unhealthy(conns, healthy, true);
            |kept| + |idle| + |leased| == |conns| && CountInUse(kept) + |leased| == CountInUse(conns)
  {
    if conns != [] {
      var front, c := conns[..|conns| - 1], conns[|conns| - 1];
      HealthyCounts(front, healthy);
      LastIsNew(conns);
      UnhealthyInPool(front, healthy, false);
      UnhealthyInPool(front, healthy, true);
      CountSnoc(Healthy(front, healthy), c);
    }
  }

  /** A part shut and a part forgotten: still every connection is in one place. */
  lemma Regroup(kept: set<ConnId>, idle: set<ConnId>, leased: set<ConnId>, shut: set<ConnId>, dropped: set<ConnId>)
    requires kept !! idle !! leased && (kept + idle + leased) !! shut !! dropped
    ensures kept !! (shut + idle) !! (dropped + leased)
    ensures kept + (shut + idle) + (dropped + leased) == (kept + idle + leased) + shut + dropped
    ensures |dropped + leased| == |dropped| + |leased|
  {
  }

  lemma SweptAccounted(p: Pool, healthy: set<ConnId>)
    requires Accounted(p)
    ensures Accounted(SweptTo(p, Healthy(p.conns, healthy),
                              Unhealthy(p.conns, healthy, false), Unhealthy(p.conns, healthy, true)))
  {
    HealthyMembers(p.conns, healthy);
    HealthyUnion(p.conns, healthy);
    HealthyDisjoint(p.conns, healthy);
    hide Ids, Healthy, Unhealthy;
    Regroup(Ids(Healthy(p.conns, healthy)), Unhealthy(p.conns, healthy, false), Unhealthy(p.conns, healthy, true),
            p.shut, p.dropped);
  }

  lemma SweptCounters(p: Pool, healthy: set<ConnId>)
    requires Accounted(p) && CountersExact(p)
    ensures CountersExact(SweptTo(p, Healthy(p.conns, healthy),
                                  Unhealthy(p.conns, healthy, false), Unhealthy(p.conns, healthy, true)))
  {
    hide Ids, Healthy, Unhealthy, CountInUse;
    HealthyCounts(p.conns, healthy);
    DroppedGrows(p, healthy);
  }

  lemma DroppedGrows(p: Pool, healthy: set<ConnId>)
    requires Accounted(p)
    ensures |p.dropped + Unhealthy(p.conns, healthy, true)| == |p.dropped| + |Unhealthy(p.conns, healthy, true)|
  {
    UnhealthyInPool(p.conns, healthy, true);
    hide Ids, Unhealthy;
    assert p.dropped !! Unhealthy(p.conns, healthy, true);
  }

  lemma SweepKeepsPoolInv(p: Pool, healthy: set<ConnId>)
    requires PoolInv(p) && !p.closed
    ensures PoolInv(Sweep(p, p.conns, healthy))
  {
    SweepOutcome(p, p.conns, healthy);
    SweptAccounted(p, healthy);
    SweptCounters(p, healthy);
    hide Accounted, CountersExact, Sweep, Healthy, Unhealthy;
  }

  lemma AddIdleKeepsPoolInv(p: Pool, id: ConnId, now: int)
    requires PoolInv(p) && !p.closed && id !in p.dialled && p.current < p.maxSize
    ensures PoolInv(AddIdle(p, id, now))
  {
    JoinKeepsPoolInv(p, NewConn(id, now));
  }

  lemma FreshTail(dials: seq<Option<ConnId>>, dialled: set<ConnId>)
    requires FreshDials(dials, dialled) && dials != [] && dials[0].Some?
    ensures FreshDials(dials[1..], dialled + {dials[0].value})
    ensures dials[0].value !in dialled
  {
  }

  lemma {:induction false} RefillKeepsPoolInv(p: Pool, dials: seq<Option<ConnId>>, now: int)
    requires PoolInv(p) && !p.closed && FreshDials(dials, p.dialled)
    ensures PoolInv(Refill(p, dials, now))
    decreases |dials|
  {
    hide Accounted, CountersExact;
    if p.current < p.minSize && dials != [] && dials[0].Some? {
      AddIdleKeepsPoolInv(p, dials[0].value, now);
      FreshTail(dials, p.dialled);
      RefillKeepsPoolInv(AddIdle(p, dials[0].value, now), dials[1..], now);
    }
  }

  function NewConns(dials: seq<Option<ConnId>>, k: nat, now: int): (cs: seq<Conn>)
    requires k <= |dials| && forall i :: 0 <= i < k ==> dials[i].Some?
  {
    seq(k, i requires 0 <= i < k => NewConn(dials[i].value, now))
  }

  /** The pool with the first `k` dial outcomes appended as idle connections. */
  function Added(p: Pool, dials: seq<Option<ConnId>>, k: nat, now: int): Pool
    requires k <= |dials| && forall i :: 0 <= i < k ==> dials[i].Some?
  {
    var added := NewConns(dials, k, now);
    p.(conns := p.conns + added, current := p.current + k,
       stats := p.stats.(idle := p.stats.idle + k), dialled := p.dialled + Ids(added))
  }

  lemma {:induction false} IdsConcat(a: seq<Conn>, b: seq<Conn>)
    ensures Ids(a + b) == Ids(a) + Ids(b)
  {
    if b == [] {
      assert a + b == a;
    } else {
      IdsConcat(a, b[..|b| - 1]);
      assert (a + b)[..|a + b| - 1] == a + b[..|b| - 1];
    }
  }

  /** A refill only appends: new idle connections, as many as were missing or as dialling allowed. */
  lemma {:induction false} RefillOutcome(p: Pool, dials: seq<Option<ConnId>>, now: int) returns (k: nat)
    ensures k <= |dials| && forall i :: 0 <= i < k ==> dials[i].Some?
    ensures Refill(p, dials, now) == Added(p, dials, k, now)
    ensures p.current + k >= p.minSize || k == |dials| || dials[k].None?
    ensures k > 0 ==> p.current + k <= p.minSize
    decreases |dials|
  {
    if p.current < p.minSize && dials != [] && dials[0].Some? {
      var q := AddIdle(p, dials[0].value, now);
      var m := RefillOutcome(q, dials[1..], now);
      k := m + 1;
      NewConnsStep(dials, m, now);
      AddedTwice(p, q, dials, m, now);
    } else {
      k := 0;
    }
  }

  lemma NewConnsStep(dials: seq<Option<ConnId>>, m: nat, now: int)
    requires m < |dials| && forall i :: 0 <= i <= m ==> dials[i].Some?
    ensures NewConns(dials, m + 1, now) == [NewConn(dials[0].value, now)] + NewConns(dials[1..], m, now)
    ensures Ids(NewConns(dials, m + 1, now)) == {dials[0].value} + Ids(NewConns(dials[1..], m, now))
  {
    var first, rest := NewConn(dials[0].value, now), NewConns(dials[1..], m, now);
    assert NewConns(dials, m + 1, now) == [first] + rest;
    IdsConcat([first], rest);
    CountSnoc([], first);
    assert [] + [first] == [first];
  }

  lemma AddedTwice(p: Pool, q: Pool, dials: seq<Option<ConnId>>, m: nat, now: int)
    requires m < |dials| && forall i :: 0 <= i <= m ==> dials[i].Some?
    requires q == AddIdle(p, dials[0].value, now)
    ensures Added(q, dials[1..], m, now) == Added(p, dials, m + 1, now)
  {
    NewConnsStep(dials, m, now);
    var first, rest := NewConn(dials[0].value, now), NewConns(dials[1..], m, now);
    assert p.conns + ([first] + rest) == p.conns + [first] + rest;
  }

  lemma HealthRoundKeepsPoolInv(p: Pool, healthy: set<ConnId>, dials: seq<Option<ConnId>>, now: int)
    requires PoolInv(p) && FreshDials(dials, p.dialled)
    ensures PoolInv(HealthRound(p, healthy, dials, now))
  {
    if !p.closed {
      SweepKeepsPoolInv(p, healthy);
      SweepOutcome(p, p.conns, healthy);
      RefillKeepsPoolInv(Sweep(p, p.conns, healthy), dials, now);
    }
  }

  // Construction.

  lemma {:induction false} PopulateShape(p: Pool, n: nat, dials: seq<Option<ConnId>>, now: int)
    requires p.conns == [] && p.current == 0
    ensures var (q, ok) := Populate(p, n, dials, now);
            && q == p.(conns := q.conns, current := |q.conns|, dialled := q.dialled)
            && |q.conns| <= n && |q.conns| <= |dials| && (ok ==> |q.conns| == n)
  {
    if n > 0 {
      PopulateShape(p, n - 1, dials, now);
    }
  }

  lemma {:induction false} PopulateIdle(p: Pool, n: nat, dials: seq<Option<ConnId>>, now: int)
    requires p.conns == []
    ensures CountInUse(Populate(p, n, dials, now).0.conns) == 0
  {
    if n > 0 {
      PopulateIdle(p, n - 1, dials, now);
      var (q, ok) := Populate(p, n - 1, dials, now);
      if ok && n <= |dials| && dials[n - 1].Some? {
        CountSnoc(q.conns, NewConn(dials[n - 1].value, now));
      }
    }
  }

  lemma {:induction false} PopulateConns(p: Pool, n: nat, dials: seq<Option<ConnId>>, now: int)
    requires p.conns == [] && p.current == 0
    ensures var q := Populate(p, n, dials, now).0;
            |q.conns| <= |dials| && forall i :: 0 <= i < |q.conns| ==> dials[i] == Some(q.conns[i].id)
  {
    PopulateShape(p, n, dials, now);
    if n > 0 {
      PopulateConns(p, n - 1, dials, now);
      PopulateShape(p, n - 1, dials, now);
    }
  }

  /** The ids of the populated pool are the first dial outcomes, so they are distinct. */
  lemma {:induction false} PopulateDialled(p: Pool, n: nat, dials: seq<Option<ConnId>>, now: int)
    requires p.conns == [] && p.dialled == {}
    ensures var q := Populate(p, n, dials, now).0; q.dialled == Ids(q.conns)
  {
    if n > 0 {
      PopulateDialled(p, n - 1, dials, now);
      var (q, ok) := Populate(p, n - 1, dials, now);
      if ok && n <= |dials| && dials[n - 1].Some? {
        CountSnoc(q.conns, NewConn(dials[n - 1].value, now));
      }
    }
  }

  /**
   A new pool holds `minSize` idle connections; when a dial fails there is no
   pool and every connection dialled so far is shut.
   */
  lemma NewPoolOutcome(config: PoolConfig, dials: seq<Option<ConnId>>, now: int)
    requires FreshDials(dials, {})
    ensures var (p, ok) := NewPool(config, dials, now);
            && PoolInv(p)
            && ok == !p.closed
            && (ok ==> |p.conns| == p.current == Defaulted(config).minSize && p.stats.idle == 0 && p.shut == {})
            && (!ok ==> p.dialled == p.shut)
            && p.dropped == {}
  {
    var p := EmptyPool(config);
    PopulateShape(p, p.minSize, dials, now);
    PopulateConns(p, p.minSize, dials, now);
    PopulateIdle(p, p.minSize, dials, now);
    PopulateDialled(p, p.minSize, dials, now);
    var q := Populate(p, p.minSize, dials, now).0;
    forall i, j | 0 <= i < j < |q.conns|
      ensures q.conns[i].id != q.conns[j].id
    {
      assert dials[i].Some? && dials[j].Some?;
    }
    CountBounds(q.conns);
  }
}
