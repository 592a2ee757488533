/**
 Runs of the cache: client operations, sweeps and the background deletions that
 `Get` starts, in any order (cache/cache.go:94-348), beside the ideal unbounded
 map, which is made from the clients' calls alone: for each key the arguments of
 the last `Set` since the client's last `Delete` or `Clear`.
 */
module CacheProtocol {
  import opened Options
  import opened MemoryCaching

  /** A background deletion remembers the expired item that started it. */
  datatype Pending = Pending(key: Key, seen: Item)

  datatype System = System(
    cache: Cache, now: nat, pending: multiset<Pending>,
    // history
    ideal: Items, overwritten: nat, evicted: nat, swept: nat, cleared: nat)

  /** Every operation carries its clock readings; `FireDelete` is a background deletion that runs. */
  datatype Step =
    | Set(key: Key, encoded: Option<(Value, nat)>, ttl: int, t1: nat, t2: nat, victims: seq<Key>)
    | Get(key: Key, t: nat, decodes: bool)
    | Delete(key: Key)
    | FireDelete(job: Pending)
    | Sweep(t1: nat, t2: nat, removed: set<Key>)
    | Clear
    | Close

  ghost predicate Possible(s: System, step: Step) {
    match step
    case Set(_, encoded, _, t1, t2, victims) =>
      && s.now <= t1 <= t2
      && (!s.cache.closed && encoded.Some? ==>
            EvictionRun(s.cache.items, s.cache.stats.memory, encoded.value.1, s.cache.maxSize, victims))
    case Get(_, t, _) => s.now <= t
    case FireDelete(job) => job in s.pending
    case Sweep(t1, t2, removed) => s.now <= t1 <= t2 && (!s.cache.closed ==> Sweepable(s.cache.items, removed, t1, t2))
    case _ => true
  }

  /** The item that a call of `Set` asks for. */
  function Asked(step: Step): Item
    requires step.Set? && step.encoded.Some?
  {
    Item(step.encoded.value.0, if step.ttl > 0 then step.t1 + step.ttl else 0, step.t2, step.encoded.value.1)
  }

  ghost function SetStep(s: System, step: Step): System
    requires step.Set?
  {
    var (c, r) := SetIn(s.cache, step.key, step.encoded, step.ttl, step.t1, step.t2, step.victims);
    var s1 := s.(cache := c, now := step.t2);
    if r != Ok then s1
    else
      s1.(ideal := s.ideal[step.key := Asked(step)],
          evicted := s.evicted + |step.victims|,
          overwritten := s.overwritten
                         + if step.key in s.cache.items && step.key !in step.victims then 1 else 0)
  }

  /** One step; a step that is not possible leaves the system as it is. */
  ghost function Next(s: System, step: Step): System {
    if !Possible(s, step) then s
    else
      match step
      case Set(_, _, _, _, _, _) => SetStep(s, step)
      case Get(k, t, decodes) =>
        s.(cache := GetFrom(s.cache, k, t, decodes).0, now := t,
           pending := if StartsDelete(s.cache, k, t) then s.pending + multiset{Pending(k, s.cache.items[k])}
                      else s.pending)
      case Delete(k) => s.(cache := DeleteFrom(s.cache, k).0, ideal := if s.cache.closed then s.ideal else s.ideal - {k})
      case FireDelete(job) =>
        s.(cache := DeleteFrom(s.cache, job.key).0, pending := s.pending - multiset{job})
      case Sweep(_, t2, removed) =>
        s.(cache := SweptOf(s.cache, removed), now := t2,
           swept := s.swept + if s.cache.closed then 0 else |removed|)
      case Clear =>
        s.(cache := ClearOf(s.cache).0, ideal := if s.cache.closed then s.ideal else map[],
           cleared := s.cleared + if s.cache.closed then 0 else |s.cache.items|)
      case Close => s.(cache := CloseOf(s.cache))
  }

  ghost function Exec(s: System, steps: seq<Step>): System {
    if steps == [] then s else Next(Exec(s, steps[..|steps| - 1]), steps[|steps| - 1])
  }

  /** `start` is the time at which the cache is made. */
  function Init(config: Config, start: nat): System {
    System(NewCache(config), start, multiset{}, map[], 0, 0, 0, 0)
  }

  // Eviction.

  lemma RemoveFirst(items: Items, victims: seq<Key>)
    requires victims != []
    ensures items - {victims[0]} - KeySet(victims[1..]) == items - KeySet(victims)
  {
    assert victims == [victims[0]] + victims[1..];
  }

  /** The accounting of the loop: what is kept, and its memory. */
  lemma {:induction false} EvictedOutcome(items: Items, need: nat, max: int, victims: seq<Key>)
    requires EvictionPrefix(items, Usage(items), need, max, victims)
    ensures var kept := items - KeySet(victims); Evicted(items, Usage(items), victims) == (kept, Usage(kept))
    decreases |victims|
  {
    if victims == [] {
      assert items - KeySet(victims) == items;
    } else {
      var v := victims[0];
      UsageRemove(items, v);
      EvictedOutcome(items - {v}, need, max, victims[1..]);
      RemoveFirst(items, victims);
    }
  }

  lemma {:induction false} VictimsStored(items: Items, memory: int, need: nat, max: int, victims: seq<Key>)
    requires EvictionPrefix(items, memory, need, max, victims)
    ensures forall k :: k in victims ==> k in items && k != ""
    decreases |victims|
  {
    if victims != [] {
      var v := victims[0];
      VictimsStored(items - {v}, memory - items[v].size, need, max, victims[1..]);
      assert victims == [v] + victims[1..];
    }
  }

  lemma {:induction false} VictimsDistinct(items: Items, memory: int, need: nat, max: int, victims: seq<Key>)
    requires EvictionPrefix(items, memory, need, max, victims)
    ensures forall i, j :: 0 <= i < j < |victims| ==> victims[i] != victims[j]
    decreases |victims|
  {
    if victims != [] {
      var v := victims[0];
      VictimsDistinct(items - {v}, memory - items[v].size, need, max, victims[1..]);
      VictimsStored(items - {v}, memory - items[v].size, need, max, victims[1..]);
      forall i, j | 0 <= i < j < |victims|
        ensures victims[i] != victims[j]
      {
        assert victims[j] == victims[1..][j - 1];
        assert i > 0 ==> victims[i] == victims[1..][i - 1];
      }
    }
  }

  lemma {:induction false} KeySetSize(keys: seq<Key>)
    requires forall i, j :: 0 <= i < j < |keys| ==> keys[i] != keys[j]
    ensures |KeySet(keys)| == |keys|
  {
    if keys != [] {
      var front, last := keys[..|keys| - 1], keys[|keys| - 1];
      KeySetSize(front);
      assert keys == front + [last];
      assert KeySet(keys) == KeySet(front) + {last};
    }
  }

  lemma PutSize(items: Items, k: Key, item: Item)
    ensures |items[k := item]| == |items| + if k in items then 0 else 1
  {
    assert items[k := item].Keys == items.Keys + {k};
  }

  lemma EvictionPrefixTail(items: Items, memory: int, need: nat, max: int, victims: seq<Key>, i: nat)
    requires EvictionPrefix(items, memory, need, max, victims) && i <= |victims|
    ensures EvictionPrefix(items, memory, need, max, victims[..i])
    ensures i < |victims| ==>
              var (kept, m) := Evicted(items, memory, victims[..i]);
              MustEvict(kept, m, need, max) && Oldest(kept, victims[i])
    decreases i
  {
    if i > 0 {
      var v := victims[0];
      EvictionPrefixTail(items - {v}, memory - items[v].size, need, max, victims[1..], i - 1);
      assert victims[..i][1..] == victims[1..][..i - 1];
    } else {
      assert victims[..0] == [];
    }
  }

  /** After a complete run there is room or nothing is left, and nothing is unaccounted for. */
  lemma EvictionMakesRoom(items: Items, need: nat, max: int, victims: seq<Key>)
    requires EvictionRun(items, Usage(items), need, max, victims)
    ensures var kept := items - KeySet(victims);
            && Evicted(items, Usage(items), victims) == (kept, Usage(kept))
            && (Usage(kept) + need <= max || kept == map[])
            && |kept| + |victims| == |items|
  {
    EvictedOutcome(items, need, max, victims);
    VictimsStored(items, Usage(items), need, max, victims);
    VictimsDistinct(items, Usage(items), need, max, victims);
    KeySetSize(victims);
    SweptSize(items, KeySet(victims));
  }

  /**
   Eviction removes a shortest oldest-first prefix: nothing kept is older than
   anything removed, before each removal the new item still did not fit, and
   afterwards it fits or nothing is left. Any iteration order, any ties.
   */
  lemma {:induction false} EvictionOldestFirst(items: Items, need: nat, max: int, victims: seq<Key>)
    requires EvictionRun(items, Usage(items), need, max, victims)
    ensures var kept := items - KeySet(victims);
            && Evicted(items, Usage(items), victims) == (kept, Usage(kept))
            && (Usage(kept) + need <= max || kept == map[])
            && |kept| + |victims| == |items|
            && (forall v, k :: v in victims && k in kept ==> v in items && items[v].createdAt <= items[k].createdAt)
    ensures forall i :: 0 <= i < |victims| ==> Usage(items - KeySet(victims[..i])) + need > max
    ensures forall i, j :: 0 <= i < j < |victims| ==>
              victims[i] in items && victims[j] in items
              && items[victims[i]].createdAt <= items[victims[j]].createdAt
  {
    EvictionMakesRoom(items, need, max, victims);
    VictimsStored(items, Usage(items), need, max, victims);
    VictimsDistinct(items, Usage(items), need, max, victims);
    forall i | 0 <= i < |victims|
      ensures Usage(items - KeySet(victims[..i])) + need > max
      ensures Oldest(items - KeySet(victims[..i]), victims[i])
    {
      EvictionPrefixTail(items, Usage(items), need, max, victims, i);
      EvictedOutcome(items, need, max, victims[..i]);
    }
    forall i, j | 0 <= i < j < |victims|
      ensures items[victims[i]].createdAt <= items[victims[j]].createdAt
    {
      var rest := items - KeySet(victims[..i]);
      assert Oldest(rest, victims[i]);
      assert victims[j] in rest;
    }
    forall v, k | v in victims && k in items && k !in victims
      ensures items[v].createdAt <= items[k].createdAt
    {
      var i :| 0 <= i < |victims| && victims[i] == v;
      var rest := items - KeySet(victims[..i]);
      assert Oldest(rest, victims[i]);
      assert k in rest;
    }
  }

  // When the eviction loop does not stop.

  /** After these victims the loop still has to evict, and may pick the empty key, which removes nothing. */
  ghost predicate StuckAfter(items: Items, need: nat, max: int, victims: seq<Key>) {
    var (kept, m) := Evicted(items, Usage(items), victims);
    && EvictionPrefix(items, Usage(items), need, max, victims)
    && MustEvict(kept, m, need, max) && Oldest(kept, "")
  }

  lemma {:induction false} StuckIsUnsafe(items: Items, need: nat, max: int, victims: seq<Key>)
    requires StuckAfter(items, need, max, victims)
    ensures !EvictionSafe(items, need, max)
    decreases |victims|
  {
    if victims == [] {
      assert NotOlder(items, items[""].createdAt) == items;
    } else {
      var v := victims[0];
      UsageRemove(items, v);
      StuckIsUnsafe(items - {v}, need, max, victims[1..]);
      var t := items[""].createdAt;
      var late := NotOlder(items, t);
      assert NotOlder(items - {v}, t) == late - {v};
      if v in late {
        UsageRemove(late, v);
      } else {
        assert late - {v} == late;
      }
    }
  }

  lemma {:induction false} OldestExists(items: Items) returns (k: Key)
    requires items != map[]
    ensures Oldest(items, k)
  {
    var j :| j in items;
    if items - {j} == map[] {
      k := j;
      assert forall i :: i in items ==> i == j || i in items - {j};
    } else {
      var m := OldestExists(items - {j});
      assert forall i :: i in items ==> i == j || i in items - {j};
      k := if items[j].createdAt <= items[m].createdAt then j else m;
    }
  }

  lemma {:induction false} UnsafeGetsStuck(items: Items, need: nat, max: int) returns (victims: seq<Key>)
    requires !EvictionSafe(items, need, max)
    ensures StuckAfter(items, need, max, victims)
    decreases |items|
  {
    var t := items[""].createdAt;
    UsageSplit(items, NotOlder(items, t).Keys);
    assert Restrict(items, NotOlder(items, t).Keys) == NotOlder(items, t);
    if Oldest(items, "") {
      victims := [];
    } else {
      var v := OldestExists(items);
      assert items[v].createdAt < t;
      assert NotOlder(items - {v}, t) == NotOlder(items, t);
      var rest := UnsafeGetsStuck(items - {v}, need, max);
      UsageRemove(items, v);
      victims := [v] + rest;
      assert victims[1..] == rest;
    }
  }

  /**
   The eviction loop can run for ever exactly when the empty key is stored and
   dropping everything strictly older than its item would not make room.
   */
  lemma EvictionStopsIffSafe(items: Items, need: nat, max: int)
    ensures (forall victims :: !StuckAfter(items, need, max, victims)) <==> EvictionSafe(items, need, max)
  {
    if EvictionSafe(items, need, max) {
      forall victims
        ensures !StuckAfter(items, need, max, victims)
      {
        if StuckAfter(items, need, max, victims) {
          StuckIsUnsafe(items, need, max, victims);
        }
      }
    } else {
      var victims := UnsafeGetsStuck(items, need, max);
    }
  }

  // The invariant.

  /** The accounting of an open cache. */
  ghost predicate Exact(c: Cache) {
    c.stats.memory == Usage(c.items) && c.stats.totalKeys == |c.items|
  }

  ghost predicate WithinLimit(c: Cache) {
    c.maxSize > 0 && (c.stats.memory <= c.maxSize || |c.items| == 1)
  }

  /** What is stored is what the ideal map says. */
  ghost predicate SubMap(items: Items, ideal: Items) {
    forall k :: k in items ==> k in ideal && ideal[k] == items[k]
  }

  ghost predicate Balanced(s: System) {
    s.cache.stats.sets
    == |s.cache.items| + s.overwritten + s.evicted + s.swept + s.cache.stats.deletes + s.cleared
  }

  ghost predicate PendingExpired(s: System) {
    forall job :: job in s.pending ==> IsExpired(job.seen, s.now)
  }

  ghost predicate Inv(s: System) {
    && SubMap(s.cache.items, s.ideal)
    && PendingExpired(s)
    && (!s.cache.closed ==> Exact(s.cache) && WithinLimit(s.cache) && Balanced(s))
    && (s.cache.closed ==> s.cache.items == map[])
  }

  /** Storing an item among those kept: the memory, the limit and the number of items. */
  lemma StoredOutcome(c: Cache, kept: Items, k: Key, item: Item)
    requires c.maxSize > 0 && (Usage(kept) + item.size <= c.maxSize || kept == map[])
    ensures var c' := Stored(c, kept, Usage(kept), k, item);
            && Exact(c') && WithinLimit(c')
            && |c'.items| == |kept| + if k in kept then 0 else 1
  {
    StoredUsage(kept, k, item);
    PutSize(kept, k, item);
  }

  lemma StoredUsage(kept: Items, k: Key, item: Item)
    ensures Usage(kept[k := item]) == Usage(kept) - (if k in kept then kept[k].size else 0) + item.size
  {
    UsagePut(kept, k, item);
    if k in kept {
      UsageRemove(kept, k);
    } else {
      assert kept - {k} == kept;
    }
  }

  lemma SubMapStored(items: Items, ideal: Items, gone: set<Key>, k: Key, item: Item)
    requires SubMap(items, ideal)
    ensures SubMap((items - gone)[k := item], ideal[k := item])
  {
  }

  lemma SetShape(s: System, step: Step, kept: Items)
    requires step.Set? && !s.cache.closed && step.encoded.Some?
    requires Evicted(s.cache.items, s.cache.stats.memory, step.victims) == (kept, Usage(kept))
    ensures SetStep(s, step)
            == s.(cache := Stored(s.cache, kept, Usage(kept), step.key, Asked(step)), now := step.t2,
                  ideal := s.ideal[step.key := Asked(step)], evicted := s.evicted + |step.victims|,
                  overwritten := s.overwritten
                                 + if step.key in s.cache.items && step.key !in step.victims then 1 else 0)
  {
    hide Evicted, Usage;
  }

  lemma SetKeepsInv(s: System, step: Step)
    requires Inv(s) && step.Set? && Possible(s, step) && !s.cache.closed && step.encoded.Some?
    ensures Inv(SetStep(s, step))
  {
    var kept := s.cache.items - KeySet(step.victims);
    assert s.cache.stats.memory == Usage(s.cache.items) && s.cache.maxSize > 0;
    EvictionMakesRoom(s.cache.items, step.encoded.value.1, s.cache.maxSize, step.victims);
    StoredOutcome(s.cache, kept, step.key, Asked(step));
    SubMapStored(s.cache.items, s.ideal, KeySet(step.victims), step.key, Asked(step));
    SetShape(s, step, kept);
    hide EvictionRun, Evicted, Usage, KeySet, SubMap, Exact, WithinLimit, SetStep;
  }

  lemma DeleteKeepsInv(s: System, k: Key, ideal: Items, pending: multiset<Pending>)
    requires Inv(s) && (ideal == s.ideal || ideal == s.ideal - {k}) && pending <= s.pending
    ensures Inv(s.(cache := DeleteFrom(s.cache, k).0, ideal := ideal, pending := pending))
  {
    if !s.cache.closed && k in s.cache.items {
      UsageRemove(s.cache.items, k);
      assert s.cache.items.Keys == (s.cache.items - {k}).Keys + {k};
    } else {
      assert s.cache.items - {k} == s.cache.items;
    }
    assert forall job :: job in pending ==> job in s.pending;
  }

  lemma SweepKeepsInv(s: System, step: Step)
    requires Inv(s) && step.Sweep? && Possible(s, step) && !s.cache.closed
    ensures Inv(Next(s, step))
  {
    UsageSplit(s.cache.items, step.removed);
    SweptSize(s.cache.items, step.removed);
  }

  lemma SweptSize(items: Items, removed: set<Key>)
    requires removed <= items.Keys
    ensures |items - removed| == |items| - |removed|
    ensures removed == {} ==> items - removed == items
    ensures |items| == 1 && removed != {} ==> items - removed == map[]
  {
    assert items.Keys == (items - removed).Keys + removed;
    if |items| == 1 && removed != {} {
      assert |(items - removed).Keys| == 0;
    } else if removed == {} {
      assert items - removed == items;
    }
  }

  /** Every step keeps the invariant. */
  lemma NextKeepsInv(s: System, step: Step)
    requires Inv(s)
    ensures Inv(Next(s, step))
  {
    if Possible(s, step) {
      match step
      case Set(_, encoded, _, _, _, _) => if !s.cache.closed && encoded.Some? { SetKeepsInv(s, step); }
      case Get(_, _, _) =>
      case Delete(k) => DeleteKeepsInv(s, k, if s.cache.closed then s.ideal else s.ideal - {k}, s.pending);
      case FireDelete(job) => DeleteKeepsInv(s, job.key, s.ideal, s.pending - multiset{job});
      case Sweep(_, _, _) => if !s.cache.closed { SweepKeepsInv(s, step); }
      case Clear =>
      case Close =>
    }
  }

  lemma {:induction false} ReachableInv(config: Config, start: nat, steps: seq<Step>)
    ensures Inv(Exec(Init(config, start), steps))
  {
    if steps != [] {
      ReachableInv(config, start, steps[..|steps| - 1]);
      NextKeepsInv(Exec(Init(config, start), steps[..|steps| - 1]), steps[|steps| - 1]);
    }
  }

  // Main results.

  /** The steps that are possible when their turn comes; the others change nothing. */
  ghost function Happened(s: System, steps: seq<Step>): seq<Step> {
    if steps == [] then []
    else
      var front, last := steps[..|steps| - 1], steps[|steps| - 1];
      Happened(s, front) + if Possible(Exec(s, front), last) then [last] else []
  }

  /**
   The last successful `Set` of a key since the client's last `Delete` of it or
   `Clear`. It is found in the list of calls; no cache is looked at.
   */
  function LastSet(steps: seq<Step>, k: Key): (r: Option<Step>)
    ensures r.Some? ==> r.value.Set? && r.value.key == k && r.value.encoded.Some? && r.value in steps
  {
    if steps == [] then None
    else
      var front, last := steps[..|steps| - 1], steps[|steps| - 1];
      if Close in front then LastSet(front, k)
      else if last.Set? && last.key == k && last.encoded.Some? then Some(last)
      else if last == Delete(k) || last == Clear then None
      else LastSet(front, k)
  }

  /** A call of `Set` asks for its value until its time to live is over, or for ever when there is none. */
  predicate LiveAt(call: Step, t: nat)
    requires call.Set?
  {
    call.ttl > 0 ==> t <= call.t1 + call.ttl
  }

  /** Only `Close` closes the cache. */
  lemma NextClosed(s: System, step: Step)
    ensures Next(s, step).cache.closed <==> s.cache.closed || step == Close
  {
    hide EvictionRun, Sweepable, Evicted;
  }

  lemma {:induction false} ClosedByClose(config: Config, start: nat, steps: seq<Step>)
    ensures Exec(Init(config, start), steps).cache.closed <==> Close in Happened(Init(config, start), steps)
  {
    if steps != [] {
      var front, last := steps[..|steps| - 1], steps[|steps| - 1];
      ClosedByClose(config, start, front);
      NextClosed(Exec(Init(config, start), front), last);
      assert last == Close ==> Possible(Exec(Init(config, start), front), last);
      hide Next, Possible;
    }
  }

  /** What one more call does to the answer for a key. */
  lemma LastSetSnoc(steps: seq<Step>, call: Step, k: Key)
    ensures LastSet(steps + [call], k)
            == if Close in steps then LastSet(steps, k)
               else if call.Set? && call.key == k && call.encoded.Some? then Some(call)
               else if call == Delete(k) || call == Clear then None
               else LastSet(steps, k)
  {
    assert (steps + [call])[..|steps|] == steps;
  }

  /** What one step does to the ideal entry of a key. */
  lemma NextIdeal(s: System, step: Step, k: Key)
    requires Possible(s, step)
    ensures var ideal := Next(s, step).ideal;
            if s.cache.closed then ideal == s.ideal
            else if step.Set? && step.key == k && step.encoded.Some? then k in ideal && ideal[k] == Asked(step)
            else if step == Delete(k) || step == Clear then k !in ideal
            else (k in ideal <==> k in s.ideal) && (k in ideal ==> ideal[k] == s.ideal[k])
  {
    hide Possible, DeleteFrom, GetFrom, SweptOf, Evicted, Stored;
  }

  /** The recorded ideal map holds, for each key, what the last `Set` in the list of calls asks for. */
  lemma {:induction false} IdealIsLastSet(config: Config, start: nat, steps: seq<Step>, k: Key)
    ensures var s, last := Exec(Init(config, start), steps), LastSet(Happened(Init(config, start), steps), k);
            (k in s.ideal <==> last.Some?) && (k in s.ideal ==> s.ideal[k] == Asked(last.value))
  {
    if steps != [] {
      var s0 := Init(config, start);
      var front, last := steps[..|steps| - 1], steps[|steps| - 1];
      IdealIsLastSet(config, start, front, k);
      if Possible(Exec(s0, front), last) {
        ClosedByClose(config, start, front);
        NextIdeal(Exec(s0, front), last, k);
        LastSetSnoc(Happened(s0, front), last, k);
      } else {
        assert Happened(s0, front) + [] == Happened(s0, front);
      }
      hide Next, Possible, LastSet;
    }
  }

  /**
   In every run a hit is the value that the last `Set` of that key was called with,
   and its time to live, counted from that call, is not over.
   */
  lemma HitsAreLatest(config: Config, start: nat, steps: seq<Step>, k: Key, t: nat)
    ensures var c := Exec(Init(config, start), steps).cache;
            var last := LastSet(Happened(Init(config, start), steps), k);
            && (forall v :: GetFrom(c, k, t, true).1 == Hit(v) ==>
                  last.Some? && last.value.encoded.value.0 == v && LiveAt(last.value, t))
            && (GetFrom(c, k, t, false).1 == ErrDecode ==> last.Some? && LiveAt(last.value, t))
            && (ExistsIn(c, k, t) ==> last.Some? && LiveAt(last.value, t))
  {
    ReachableInv(config, start, steps);
    IdealIsLastSet(config, start, steps, k);
  }

  /** In every run, while the cache is open, its counters are exact and its size is limited. */
  lemma AccountingExact(config: Config, start: nat, steps: seq<Step>)
    ensures var s := Exec(Init(config, start), steps);
            !s.cache.closed ==>
              && s.cache.stats.memory == Usage(s.cache.items)
              && s.cache.stats.totalKeys == |s.cache.items|
              && (s.cache.stats.memory <= s.cache.maxSize || |s.cache.items| == 1)
              && s.cache.stats.sets
                 == |s.cache.items| + s.overwritten + s.evicted + s.swept + s.cache.stats.deletes + s.cleared
  {
    ReachableInv(config, start, steps);
  }

  /** No unexpired entry of the ideal map is missing. */
  ghost predicate Agrees(s: System) {
    forall k :: k in s.ideal && !IsExpired(s.ideal[k], s.now) ==> k in s.cache.items
  }

  /** A step that loses an unexpired entry: an eviction of another key, or a late background deletion. */
  ghost predicate Loses(s: System, step: Step) {
    && Possible(s, step) && !s.cache.closed
    && match step
       case Set(k, encoded, _, _, t2, victims) =>
         encoded.Some? && exists v :: v in victims && v != k && v in s.cache.items && !IsExpired(s.cache.items[v], t2)
       case FireDelete(job) => job.key in s.cache.items && !IsExpired(s.cache.items[job.key], s.now)
       case _ => false
  }

  lemma SetAgreement(s: System, step: Step)
    requires Inv(s) && Agrees(s) && step.Set? && Possible(s, step) && !s.cache.closed && step.encoded.Some?
    ensures Agrees(SetStep(s, step)) <==> !Loses(s, step)
  {
    EvictionMakesRoom(s.cache.items, step.encoded.value.1, s.cache.maxSize, step.victims);
    var s' := SetStep(s, step);
    var kept := s.cache.items - KeySet(step.victims);
    assert forall k :: k in s'.cache.items <==> k in kept || k == step.key;
    assert forall k :: k in kept <==> k in s.cache.items && k !in step.victims;
    hide Evicted, EvictionRun, Usage;
    if Loses(s, step) {
      var v :| v in step.victims && v != step.key && v in s.cache.items && !IsExpired(s.cache.items[v], step.t2);
      assert v in s'.ideal && s'.ideal[v] == s.cache.items[v] && v !in s'.cache.items;
    }
  }

  /** While the cache is open, agreement with the ideal map is lost by exactly these steps. */
  lemma StepKeepsAgreement(s: System, step: Step)
    requires Inv(s) && Agrees(s) && !s.cache.closed && step != Close
    ensures Agrees(Next(s, step)) <==> !Loses(s, step)
  {
    hide Exact, WithinLimit, Balanced, PendingExpired, Usage, EvictionRun, Evicted;
    if Possible(s, step) {
      match step
      case Set(_, encoded, _, _, _, _) => if encoded.Some? { SetAgreement(s, step); }
      case FireDelete(job) =>
        if Loses(s, step) {
          assert job.key in s.ideal && job.key !in Next(s, step).cache.items;
        }
      case _ =>
    }
  }

  /** A background deletion does harm only when the key has been set again since it was started. */
  lemma LateDeleteOnlyAfterReset(s: System, job: Pending)
    requires Inv(s) && Loses(s, FireDelete(job))
    ensures s.cache.items[job.key] != job.seen
  {
  }

  ghost predicate Lossless(s: System, steps: seq<Step>) {
    steps != [] ==>
      && Lossless(s, steps[..|steps| - 1])
      && !Loses(Exec(s, steps[..|steps| - 1]), steps[|steps| - 1])
      && steps[|steps| - 1] != Close
  }

  lemma {:induction false} LosslessAgrees(config: Config, start: nat, steps: seq<Step>)
    requires Lossless(Init(config, start), steps)
    ensures Agrees(Exec(Init(config, start), steps)) && !Exec(Init(config, start), steps).cache.closed
  {
    if steps != [] {
      LosslessAgrees(config, start, steps[..|steps| - 1]);
      ReachableInv(config, start, steps[..|steps| - 1]);
      StepKeepsAgreement(Exec(Init(config, start), steps[..|steps| - 1]), steps[|steps| - 1]);
    }
  }

  /**
   In runs without such a loss, `Get` and `Exists` answer at every moment from the
   last `Set` in the list of calls, whatever the sweeper has removed.
   */
  lemma LosslessIsIdeal(config: Config, start: nat, steps: seq<Step>, k: Key, t: nat)
    requires Lossless(Init(config, start), steps) && Exec(Init(config, start), steps).now <= t
    ensures var c := Exec(Init(config, start), steps).cache;
            var last := LastSet(Happened(Init(config, start), steps), k);
            var live := last.Some? && LiveAt(last.value, t);
            && ExistsIn(c, k, t) == live
            && GetFrom(c, k, t, true).1 == (if live then Hit(last.value.encoded.value.0) else ErrKeyNotFound)
            && GetFrom(c, k, t, false).1 == (if live then ErrDecode else ErrKeyNotFound)
  {
    LosslessAgrees(config, start, steps);
    ReachableInv(config, start, steps);
    IdealIsLastSet(config, start, steps, k);
  }

  // Concrete runs.

  lemma ExecThree(s: System, a: Step, b: Step, c: Step)
    ensures Exec(s, [a]) == Next(s, a)
    ensures Exec(s, [a, b, c]) == Next(Next(Next(s, a), b), c)
  {
    hide Next;
    assert [a][..0] == [] && [a, b][..1] == [a] && [a, b, c][..2] == [a, b];
    assert Exec(s, []) == s;
    assert Exec(s, [a, b]) == Next(Exec(s, [a]), b);
  }

  /** Where the loop gets stuck at once, no complete run of it exists. */
  lemma StuckHasNoRun(items: Items, need: nat, max: int)
    requires items.Keys == {""} && StuckAfter(items, need, max, [])
    ensures forall victims :: !EvictionRun(items, Usage(items), need, max, victims)
  {
    forall victims
      ensures !EvictionRun(items, Usage(items), need, max, victims)
    {
      if victims != [] {
        assert !Oldest(items, victims[0]) || victims[0] == "";
      }
    }
  }

  /** A `Set` for which there is room evicts nothing. */
  lemma SetWithRoom(s: System, call: Step)
    requires call.Set? && call.encoded.Some? && call.victims == [] && s.now <= call.t1 <= call.t2
    requires !s.cache.closed && s.cache.stats.memory + call.encoded.value.1 <= s.cache.maxSize
    ensures var s' := Next(s, call);
            && s'.cache == Stored(s.cache, s.cache.items, s.cache.stats.memory, call.key, Asked(call))
            && s'.now == call.t2 && s'.pending == s.pending
  {
  }

  lemma UsageOfOne(k: Key, item: Item)
    ensures Usage(map[k := item]) == item.size
  {
    UsageRemove(map[k := item], k);
    assert map[k := item] - {k} == map[];
  }

  /** One item under the empty key fills the cache: the next `Set` that needs room never returns. */
  lemma EndlessEvictionExample()
    ensures var s := Exec(Init(Config(1, 1), 1), [Set("", Some(("v", 1)), 0, 1, 1, [])]);
            && s.cache.items == map["" := Item("v", 0, 1, 1)] && !s.cache.closed
            && StuckAfter(s.cache.items, 1, s.cache.maxSize, [])
            && forall victims :: !EvictionRun(s.cache.items, s.cache.stats.memory, 1, s.cache.maxSize, victims)
  {
    var call := Set("", Some(("v", 1)), 0, 1, 1, []);
    var s := Init(Config(1, 1), 1);
    ExecThree(s, call, call, call);
    UsageOfOne("", Item("v", 0, 1, 1));
    assert Next(s, call).cache.items == map["" := Item("v", 0, 1, 1)];
    StuckHasNoRun(map["" := Item("v", 0, 1, 1)], 1, 1);
  }

  /**
   An expired item is looked up, which starts a deletion; the key is set again, and
   then the deletion runs and takes the new item, which never expires.
   */
  lemma LateDeleteExample()
    ensures var job := Pending("k", Item("old", 2, 1, 1));
            var s := Exec(Init(Config(9, 1), 1),
                          [Set("k", Some(("old", 1)), 1, 1, 1, []), Get("k", 3, true), Set("k", Some(("new", 1)), 0, 3, 3, [])]);
            && GetFrom(s.cache, "k", 3, true).1 == Hit("new")
            && Possible(s, FireDelete(job)) && Loses(s, FireDelete(job))
            && GetFrom(Next(s, FireDelete(job)).cache, "k", 3, true).1 == ErrKeyNotFound
  {
    var a, b, c := Set("k", Some(("old", 1)), 1, 1, 1, []), Get("k", 3, true), Set("k", Some(("new", 1)), 0, 3, 3, []);
    var s := Init(Config(9, 1), 1);
    ExecThree(s, a, b, c);
    SetWithRoom(s, a);
    var s1 := Next(s, a);
    assert s1.cache.items == map["k" := Item("old", 2, 1, 1)];
    var s2 := Next(s1, b);
    assert s2 == s1.(cache := s2.cache, now := 3, pending := multiset{Pending("k", Item("old", 2, 1, 1))});
    SetWithRoom(s2, c);
  }

  /**
   Reading an item does not protect it: after any `Get` exactly the same
   evictions are possible as before.
   */
  lemma GetKeepsVictims(s: System, get: Step, need: nat, victims: seq<Key>)
    requires get.Get?
    ensures var c, c' := s.cache, Next(s, get).cache;
            c'.items == c.items
            && (EvictionRun(c'.items, c'.stats.memory, need, c'.maxSize, victims)
                <==> EvictionRun(c.items, c.stats.memory, need, c.maxSize, victims))
  {
  }

  lemma OneVictim(items: Items, memory: int, need: nat, max: int, v: Key)
    requires Oldest(items, v) && v != ""
    requires memory + need > max && memory - items[v].size + need <= max
    ensures EvictionRun(items, memory, need, max, [v])
    ensures Evicted(items, memory, [v]) == (items - {v}, memory - items[v].size)
  {
    assert [v][1..] == [];
    assert EvictionPrefix(items - {v}, memory - items[v].size, need, max, []);
  }

  lemma ReadThenEvict(s: System)
    requires s.cache.items == map["a" := Item("v", 0, 1, 1), "b" := Item("v", 0, 2, 1)] && s.cache.stats.memory == 2
    requires !s.cache.closed && s.cache.maxSize == 2 && s.now == 2
    ensures var s', call := Next(s, Get("a", 3, true)), Set("c", Some(("v", 1)), 0, 4, 4, ["a"]);
            && s'.cache.stats.hits == s.cache.stats.hits + 1 && Possible(s', call)
            && Next(s', call).cache.items.Keys == {"b", "c"}
  {
    var s' := Next(s, Get("a", 3, true));
    assert s'.cache == s.cache.(stats := s.cache.stats.(hits := s.cache.stats.hits + 1)) && s'.now == 3;
    OneVictim(s.cache.items, 2, 1, 2, "a");
    hide Evicted, EvictionRun, GetFrom;
    assert s.cache.items - {"a"} == map["b" := Item("v", 0, 2, 1)];
  }

  /** The item read a moment ago is the victim, and one that was never read stays. */
  lemma ReadItemEvictedExample()
    ensures var s := Exec(Init(Config(2, 1), 1),
                          [Set("a", Some(("v", 1)), 0, 1, 1, []), Set("b", Some(("v", 1)), 0, 2, 2, []), Get("a", 3, true)]);
            var call := Set("c", Some(("v", 1)), 0, 4, 4, ["a"]);
            && s.cache.stats.hits == 1 && Possible(s, call)
            && Next(s, call).cache.items.Keys == {"b", "c"}
  {
    var a, b, c := Set("a", Some(("v", 1)), 0, 1, 1, []), Set("b", Some(("v", 1)), 0, 2, 2, []), Get("a", 3, true);
    var s := Init(Config(2, 1), 1);
    ExecThree(s, a, b, c);
    SetWithRoom(s, a);
    SetWithRoom(Next(s, a), b);
    ReadThenEvict(Next(Next(s, a), b));
    hide Next;
  }
}
