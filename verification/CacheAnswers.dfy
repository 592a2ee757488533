/**
 What every operation of the cache answers and does, field by field (cache/cache.go:
 72-348), and what its counters say about the calls of a whole run.
 */
module CacheAnswers {
  import opened Options
  import opened MemoryCaching
  import opened CacheProtocol

  /** Stored and not expired at time `t`; a deadline of zero means that there is none. */
  predicate Fresh(c: Cache, k: Key, t: nat) {
    k in c.items && (c.items[k].expiredAt == 0 || t <= c.items[k].expiredAt)
  }

  /**
   A lookup changes nothing but the counters: one hit for a fresh item, also when its
   value does not fit the destination, which counts an error too; one miss otherwise.
   A background deletion is started exactly for an item that is there but expired.
   */
  lemma GetAnswers(c: Cache, k: Key, t: nat, decodes: bool)
    ensures var (c', r) := GetFrom(c, k, t, decodes);
            var st := c.stats;
            if c.closed then r == ErrCacheClosed && c' == c
            else if !Fresh(c, k, t) then r == ErrKeyNotFound && c' == c.(stats := st.(misses := st.misses + 1))
            else if decodes then r == Hit(c.items[k].value) && c' == c.(stats := st.(hits := st.hits + 1))
            else r == ErrDecode && c' == c.(stats := st.(hits := st.hits + 1, errors := st.errors + 1))
    ensures StartsDelete(c, k, t) <==> !c.closed && k in c.items && !Fresh(c, k, t)
    ensures ExistsIn(c, k, t) <==> !c.closed && Fresh(c, k, t)
  {
  }

  lemma SetStores(c: Cache, k: Key, encoded: Option<(Value, nat)>, ttl: int, t1: nat, t2: nat, victims: seq<Key>,
                  kept: Items)
    requires !c.closed && encoded.Some? && Evicted(c.items, c.stats.memory, victims) == (kept, Usage(kept))
    ensures SetIn(c, k, encoded, ttl, t1, t2, victims)
            == (Stored(c, kept, Usage(kept), k,
                       Item(encoded.value.0, if ttl > 0 then t1 + ttl else 0, t2, encoded.value.1)), Ok)
  {
    hide Evicted, Usage, Stored;
  }

  lemma StoredAnswers(c: Cache, kept: Items, k: Key, item: Item)
    ensures var c' := Stored(c, kept, Usage(kept), k, item);
            && c'.items == kept[k := item]
            && c' == c.(items := c'.items,
                        stats := c.stats.(memory := Usage(c'.items), totalKeys := |c'.items|, sets := c.stats.sets + 1))
  {
    StoredUsage(kept, k, item);
    hide Usage;
  }

  /**
   A `Set` on an open cache stores the value with its deadline (the first clock
   reading and the time to live, or none), the second clock reading and its size,
   among what the eviction has kept; a closed cache and a failed encoding store nothing.
   */
  lemma SetAnswers(c: Cache, k: Key, encoded: Option<(Value, nat)>, ttl: int, t1: nat, t2: nat, victims: seq<Key>)
    requires !c.closed && encoded.Some? ==>
               c.stats.memory == Usage(c.items)
               && EvictionRun(c.items, c.stats.memory, encoded.value.1, c.maxSize, victims)
    ensures var (c', r) := SetIn(c, k, encoded, ttl, t1, t2, victims);
            var st := c.stats;
            if c.closed then r == ErrCacheClosed && c' == c
            else if encoded.None? then r == ErrEncode && c' == c.(stats := st.(errors := st.errors + 1))
            else
              && r == Ok
              && c'.items == (c.items - KeySet(victims))
                             [k := Item(encoded.value.0, if ttl > 0 then t1 + ttl else 0, t2, encoded.value.1)]
              && c' == c.(items := c'.items,
                          stats := st.(memory := Usage(c'.items), totalKeys := |c'.items|, sets := st.sets + 1))
  {
    if !c.closed && encoded.Some? {
      EvictedOutcome(c.items, encoded.value.1, c.maxSize, victims);
      hide *;
      var item := Item(encoded.value.0, if ttl > 0 then t1 + ttl else 0, t2, encoded.value.1);
      var kept := c.items - KeySet(victims);
      SetStores(c, k, encoded, ttl, t1, t2, victims, kept);
      StoredAnswers(c, kept, k, item);
    }
  }

  /** Deleting takes out the key's item with its memory and counts only when there was one. */
  lemma DeleteAnswers(c: Cache, k: Key)
    requires c.stats.memory == Usage(c.items)
    ensures var (c', r) := DeleteFrom(c, k);
            if c.closed then r == ErrCacheClosed && c' == c
            else
              && r == Ok && c'.items == c.items - {k}
              && c' == if k !in c.items then c
                       else c.(items := c'.items, stats := c.stats.(memory := Usage(c'.items), totalKeys := |c'.items|,
                                                                    deletes := c.stats.deletes + 1))
  {
    if k in c.items {
      UsageRemove(c.items, k);
    } else {
      assert c.items - {k} == c.items;
    }
  }

  lemma ClearAnswers(c: Cache)
    ensures ClearOf(c)
            == if c.closed then (c, ErrCacheClosed)
               else (c.(items := map[], stats := c.stats.(memory := 0, totalKeys := 0)), Ok)
    ensures CloseOf(c) == if c.closed then c else c.(closed := true, items := map[])
  {
  }

  /**
   A sweep of an open cache removes every item that was expired when it began and
   none that is still fresh when it ends, and keeps account of the memory.
   */
  lemma SweepAnswers(s: System, t1: nat, t2: nat, removed: set<Key>)
    requires Inv(s) && Possible(s, Sweep(t1, t2, removed)) && !s.cache.closed
    ensures var c, c' := s.cache, Next(s, Sweep(t1, t2, removed)).cache;
            && (forall k :: k in c'.items ==> k in c.items && c'.items[k] == c.items[k] && Fresh(c, k, t1))
            && (forall k :: Fresh(c, k, t2) ==> k in c'.items)
            && c' == c.(items := c'.items, stats := c.stats.(memory := Usage(c'.items), totalKeys := |c'.items|))
  {
    UsageSplit(s.cache.items, removed);
  }

  /** A sweep can happen at any time: it can remove just what is expired when it ends. */
  lemma SweepPossible(s: System, t1: nat, t2: nat)
    requires s.now <= t1 <= t2
    ensures Possible(s, Sweep(t1, t2, set k | k in s.cache.items && !Fresh(s.cache, k, t2)))
  {
  }

  /** A new cache is empty and open, with the size limit asked for or 100 megabytes. */
  lemma NewCacheAnswers(config: Config)
    ensures NewCache(config)
            == Cache(map[], Stats(0, 0, 0, 0, 0, 0, 0), false, if config.maxSize > 0 then config.maxSize else 104857600)
  {
  }

  lemma NextLimit(s: System, step: Step)
    ensures Next(s, step).cache.maxSize == s.cache.maxSize
  {
    hide EvictionRun, Sweepable, Evicted;
  }

  /** In every run the limit stays the configured one, and an open cache exceeds it only with a single item. */
  lemma {:induction false} LimitKept(config: Config, start: nat, steps: seq<Step>)
    ensures var c := Exec(Init(config, start), steps).cache;
            var limit := if config.maxSize > 0 then config.maxSize else 104857600;
            c.maxSize == limit && (!c.closed ==> Usage(c.items) <= limit || |c.items| == 1)
  {
    if steps != [] {
      LimitKept(config, start, steps[..|steps| - 1]);
      NextLimit(Exec(Init(config, start), steps[..|steps| - 1]), steps[|steps| - 1]);
      hide Next;
    }
    ReachableInv(config, start, steps);
  }

  // What the lookup counters say about a run.

  /** How many lookups came before the cache was closed. */
  function Lookups(steps: seq<Step>): nat {
    if steps == [] then 0
    else
      var front, last := steps[..|steps| - 1], steps[|steps| - 1];
      Lookups(front) + if last.Get? && Close !in front then 1 else 0
  }

  /** How many of them were for a key whose last `Set` was still alive. */
  function LiveLookups(steps: seq<Step>): nat {
    if steps == [] then 0
    else
      var front, last := steps[..|steps| - 1], steps[|steps| - 1];
      LiveLookups(front) + if last.Get? && Close !in front && Alive(front, last.key, last.t) then 1 else 0
  }

  predicate Alive(steps: seq<Step>, k: Key, t: nat) {
    var last := LastSet(steps, k);
    last.Some? && LiveAt(last.value, t)
  }

  lemma LookupsSnoc(steps: seq<Step>, step: Step)
    ensures Lookups(steps + [step]) == Lookups(steps) + if step.Get? && Close !in steps then 1 else 0
    ensures LiveLookups(steps + [step])
            == LiveLookups(steps) + if step.Get? && Close !in steps && Alive(steps, step.key, step.t) then 1 else 0
  {
    assert (steps + [step])[..|steps|] == steps;
  }

  /** Only lookups move the two counters, each by one, and a hit is a fresh item. */
  lemma NextCounts(s: System, step: Step)
    ensures var st, st' := s.cache.stats, Next(s, step).cache.stats;
            if step.Get? && Possible(s, step) && !s.cache.closed then
              if Fresh(s.cache, step.key, step.t) then st'.hits == st.hits + 1 && st'.misses == st.misses
              else st'.hits == st.hits && st'.misses == st.misses + 1
            else st'.hits == st.hits && st'.misses == st.misses
  {
    hide EvictionRun, Sweepable, Evicted;
  }

  /** A fresh item was set and is alive; in a lossless run what is alive is fresh. */
  lemma FreshIsAlive(config: Config, start: nat, steps: seq<Step>, k: Key, t: nat)
    ensures var s, happened := Exec(Init(config, start), steps), Happened(Init(config, start), steps);
            && (Fresh(s.cache, k, t) ==> Alive(happened, k, t))
            && (Lossless(Init(config, start), steps) && s.now <= t && Alive(happened, k, t) ==> Fresh(s.cache, k, t))
  {
    ReachableInv(config, start, steps);
    IdealIsLastSet(config, start, steps, k);
    if Lossless(Init(config, start), steps) {
      LosslessAgrees(config, start, steps);
    }
    hide Exec, Happened, Init, Lossless, LastSet, Exact, WithinLimit, Balanced;
  }

  /**
   In every run hits and misses add up to the lookups of the open cache, and hits are
   no more than the lookups of live keys; in a run without losses they are as many.
   */
  lemma {:induction false} LookupsCounted(config: Config, start: nat, steps: seq<Step>)
    ensures var st, happened := Exec(Init(config, start), steps).cache.stats, Happened(Init(config, start), steps);
            && st.hits + st.misses == Lookups(happened)
            && st.hits <= LiveLookups(happened)
            && (Lossless(Init(config, start), steps) ==> st.hits == LiveLookups(happened))
  {
    if steps != [] {
      var s0, front, last := Init(config, start), steps[..|steps| - 1], steps[|steps| - 1];
      var s, happened := Exec(s0, front), Happened(s0, front);
      LookupsCounted(config, start, front);
      ClosedByClose(config, start, front);
      NextCounts(s, last);
      LookupsSnoc(happened, last);
      if last.Get? {
        FreshIsAlive(config, start, front, last.key, last.t);
        assert Possible(s, last) ==> s.now <= last.t;
      }
      assert Happened(s0, steps) == if Possible(s, last) then happened + [last] else happened;
      assert Lossless(s0, steps) ==> Lossless(s0, front);
      hide Next, Possible, Lookups, LiveLookups, Lossless, Fresh, Alive;
    }
  }
}
