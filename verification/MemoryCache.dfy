/**
 The in-memory cache (cache/cache.go): a map with expiry times and a size limit.
 Operations are functions on a `Cache` value; the class performs them in place.
 Values are opaque with a size. Map iteration order and clock readings are free.
 */
module MemoryCaching {
  import opened Options

  type Key = string
  type Value = string

  /** Times are positive; a zero expiry means that the item does not expire. */
  datatype Item = Item(value: Value, expiredAt: nat, createdAt: nat, size: nat)

  type Items = map<Key, Item>

  predicate IsExpired(item: Item, now: nat) {
    item.expiredAt != 0 && now > item.expiredAt
  }

  ghost function Usage(items: Items): nat {
    if items == map[] then 0
    else
      var k :| k in items;
      items[k].size + Usage(items - {k})
  }

  lemma {:induction false} UsageRemove(items: Items, k: Key)
    requires k in items
    ensures Usage(items) == items[k].size + Usage(items - {k})
  {
    var j :| j in items && Usage(items) == items[j].size + Usage(items - {j});
    if j != k {
      UsageRemove(items - {j}, k);
      UsageRemove(items - {k}, j);
      assert items - {j} - {k} == items - {k} - {j};
    }
  }

  lemma UsagePut(items: Items, k: Key, item: Item)
    ensures Usage(items[k := item]) == item.size + Usage(items - {k})
  {
    UsageRemove(items[k := item], k);
    assert items[k := item] - {k} == items - {k};
  }

  /** Usage splits over any set of keys. */
  lemma {:induction false} UsageSplit(items: Items, ks: set<Key>)
    ensures Usage(items) == Usage(Restrict(items, ks)) + Usage(items - ks)
  {
    if items == map[] {
    } else {
      var k :| k in items;
      var rest := items - {k};
      UsageSplit(rest, ks);
      UsageRemove(items, k);
      if k in ks {
        UsageRemove(Restrict(items, ks), k);
        assert Restrict(items, ks) - {k} == Restrict(rest, ks);
        assert items - ks == rest - ks;
      } else {
        UsageRemove(items - ks, k);
        assert (items - ks) - {k} == rest - ks;
        assert Restrict(items, ks) == Restrict(rest, ks);
      }
    }
  }

  function Restrict(items: Items, ks: set<Key>): Items {
    map k | k in items && k in ks :: items[k]
  }

  function KeySet(keys: seq<Key>): (ks: set<Key>)
    ensures forall k :: k in ks <==> k in keys
  {
    set k | k in keys
  }

  lemma RemoveNext(items: Items, keys: seq<Key>, i: nat)
    requires i < |keys|
    ensures items - KeySet(keys[..i + 1]) == items - KeySet(keys[..i]) - {keys[i]}
  {
    assert keys[..i + 1] == keys[..i] + [keys[i]];
  }

  datatype Stats = Stats(hits: nat, misses: nat, sets: nat, deletes: nat, errors: nat, totalKeys: nat, memory: int)

  datatype Cache = Cache(items: Items, stats: Stats, closed: bool, maxSize: int)

  datatype Outcome = Ok | Hit(value: Value) | ErrKeyNotFound | ErrCacheClosed | ErrEncode | ErrDecode

  datatype Config = Config(maxSize: int, cleanupInterval: int)

  /** 100 megabytes, and five minutes in milliseconds. */
  function Defaulted(c: Config): Config {
    Config(if c.maxSize <= 0 then 100 * 1024 * 1024 else c.maxSize,
           if c.cleanupInterval <= 0 then 300000 else c.cleanupInterval)
  }

  function NewCache(c: Config): Cache {
    Cache(map[], Stats(0, 0, 0, 0, 0, 0, 0), false, Defaulted(c).maxSize)
  }

  // Eviction.

  ghost predicate Oldest(items: Items, k: Key) {
    k in items && forall j :: j in items ==> items[k].createdAt <= items[j].createdAt
  }

  predicate MustEvict(items: Items, memory: int, need: nat, max: int) {
    memory + need > max && items != map[]
  }

  /** Removes the victims one by one, keeping account of the memory. */
  function Evicted(items: Items, memory: int, victims: seq<Key>): (Items, int) {
    if victims == [] then (items, memory)
    else
      var v := victims[0];
      Evicted(items - {v}, memory - (if v in items then items[v].size else 0), victims[1..])
  }

  /** The loop can pick these victims, in this order: an oldest item each time, while room is still missing. */
  ghost predicate EvictionPrefix(items: Items, memory: int, need: nat, max: int, victims: seq<Key>) {
    victims != [] ==>
      && MustEvict(items, memory, need, max)
      && Oldest(items, victims[0]) && victims[0] != ""
      && EvictionPrefix(items - {victims[0]}, memory - items[victims[0]].size, need, max, victims[1..])
  }

  /** A complete run of the loop: after these victims it stops. */
  ghost predicate EvictionRun(items: Items, memory: int, need: nat, max: int, victims: seq<Key>) {
    var (kept, m) := Evicted(items, memory, victims);
    EvictionPrefix(items, memory, need, max, victims) && !MustEvict(kept, m, need, max)
  }

  lemma {:induction false} EvictedSnoc(items: Items, memory: int, need: nat, max: int, victims: seq<Key>, v: Key)
    requires EvictionPrefix(items, memory, need, max, victims)
    requires var (kept, m) := Evicted(items, memory, victims); MustEvict(kept, m, need, max) && Oldest(kept, v) && v != ""
    ensures EvictionPrefix(items, memory, need, max, victims + [v])
    ensures var (kept, m) := Evicted(items, memory, victims);
            Evicted(items, memory, victims + [v]) == (kept - {v}, m - kept[v].size)
  {
    if victims == [] {
      assert [] + [v] == [v] && [v][1..] == [];
    } else {
      var first := victims[0];
      EvictedSnoc(items - {first}, memory - items[first].size, need, max, victims[1..], v);
      assert (victims + [v])[1..] == victims[1..] + [v];
    }
  }

  /** The items created no earlier than `t`. */
  function NotOlder(items: Items, t: nat): Items {
    map k | k in items && items[k].createdAt >= t :: items[k]
  }

  /**
   The loop uses the empty key for "nothing found", so it is safe when no empty key
   is stored, or when dropping what is strictly older than its item makes room.
   */
  ghost predicate EvictionSafe(items: Items, need: nat, max: int) {
    "" in items ==> Usage(NotOlder(items, items[""].createdAt)) + need <= max
  }

  /** Where the loop has to evict, it does not pick the empty key, and stays safe. */
  lemma SafeStep(items: Items, need: nat, max: int, k: Key)
    requires EvictionSafe(items, need, max) && MustEvict(items, Usage(items), need, max) && Oldest(items, k)
    ensures k != "" && EvictionSafe(items - {k}, need, max)
  {
    if "" in items {
      var t := items[""].createdAt;
      assert items[k].createdAt < t by {
        assert items[k].createdAt >= t ==> NotOlder(items, t) == items;
      }
      assert NotOlder(items - {k}, t) == NotOlder(items, t);
    }
  }

  /** One more round of the loop. */
  lemma EvictMore(all: Items, memory: int, need: nat, max: int, victims: seq<Key>, items: Items, k: Key)
    requires EvictionPrefix(all, memory, need, max, victims) && Evicted(all, memory, victims) == (items, Usage(items))
    requires EvictionSafe(items, need, max) && MustEvict(items, Usage(items), need, max) && Oldest(items, k)
    ensures k != "" && EvictionSafe(items - {k}, need, max)
    ensures EvictionPrefix(all, memory, need, max, victims + [k])
    ensures Evicted(all, memory, victims + [k]) == (items - {k}, Usage(items) - items[k].size)
  {
    SafeStep(items, need, max, k);
    hide Usage, EvictionSafe;
    EvictedSnoc(all, memory, need, max, victims, k);
  }

  // Operations.

  function Deadline(ttl: int, now: nat): nat {
    if ttl > 0 then now + ttl else 0
  }

  /** `encoded` is the serialised value with its size, or nothing when serialising failed. */
  function SetIn(c: Cache, k: Key, encoded: Option<(Value, nat)>, ttl: int, t1: nat, t2: nat, victims: seq<Key>)
    : (Cache, Outcome)
  {
    if c.closed then (c, ErrCacheClosed)
    else if encoded.None? then (c.(stats := c.stats.(errors := c.stats.errors + 1)), ErrEncode)
    else
      var (value, size) := encoded.value;
      var (kept, memory) := Evicted(c.items, c.stats.memory, victims);
      (Stored(c, kept, memory, k, Item(value, Deadline(ttl, t1), t2, size)), Ok)
  }

  /** Puts an item among those kept, in place of an older one, if any. */
  function Stored(c: Cache, kept: Items, memory: int, k: Key, item: Item): Cache {
    var items := kept[k := item];
    c.(items := items,
       stats := c.stats.(memory := memory - (if k in kept then kept[k].size else 0) + item.size,
                         sets := c.stats.sets + 1, totalKeys := |items|))
  }

  function GetFrom(c: Cache, k: Key, now: nat, decodes: bool): (Cache, Outcome) {
    if c.closed then (c, ErrCacheClosed)
    else if k !in c.items || IsExpired(c.items[k], now) then
      (c.(stats := c.stats.(misses := c.stats.misses + 1)), ErrKeyNotFound)
    else
      var hit := c.stats.(hits := c.stats.hits + 1);
      if decodes then (c.(stats := hit), Hit(c.items[k].value))
      else (c.(stats := hit.(errors := hit.errors + 1)), ErrDecode)
  }

  /** Does a lookup start a background deletion of the expired item it met? */
  predicate StartsDelete(c: Cache, k: Key, now: nat) {
    !c.closed && k in c.items && IsExpired(c.items[k], now)
  }

  function DeleteFrom(c: Cache, k: Key): (Cache, Outcome) {
    if c.closed then (c, ErrCacheClosed)
    else if k !in c.items then (c, Ok)
    else
      (c.(items := c.items - {k},
          stats := c.stats.(memory := c.stats.memory - c.items[k].size,
                            deletes := c.stats.deletes + 1, totalKeys := |c.items - {k}|)), Ok)
  }

  predicate ExistsIn(c: Cache, k: Key, now: nat) {
    !c.closed && k in c.items && !IsExpired(c.items[k], now)
  }

  function ClearOf(c: Cache): (Cache, Outcome) {
    if c.closed then (c, ErrCacheClosed)
    else (c.(items := map[], stats := c.stats.(memory := 0, totalKeys := 0)), Ok)
  }

  function CloseOf(c: Cache): Cache {
    if c.closed then c else c.(closed := true, items := map[])
  }

  /** Each item is checked at its own moment between `t1` and `t2`. */
  ghost predicate Sweepable(items: Items, removed: set<Key>, t1: nat, t2: nat) {
    && removed <= items.Keys
    && (forall k :: k in removed ==> IsExpired(items[k], t2))
    && (forall k :: k in items && IsExpired(items[k], t1) ==> k in removed)
  }

  ghost function SweptOf(c: Cache, removed: set<Key>): Cache {
    if c.closed then c
    else
      c.(items := c.items - removed,
         stats := c.stats.(memory := c.stats.memory - Usage(Restrict(c.items, removed)),
                           totalKeys := |c.items - removed|))
  }

  // The objects.

  class Clock {
    var last: nat

    constructor ()
      ensures last > 0
    {
      last := 1;
    }

    /** Any time not before the previous reading. */
    method Now() returns (t: nat)
      requires last > 0
      modifies this
      ensures t == last >= old(last)
    {
      var elapsed :| 0 <= elapsed;
      last := last + elapsed;
      t := last;
    }
  }

  class MemoryCache {
    var items: Items
    var stats: Stats
    var closed: bool
    var maxSize: int
    var cleanupInterval: int

    ghost predicate Valid()
      reads this
    {
      !closed ==>
        && stats.memory == Usage(items) && stats.totalKeys == |items|
        && forall k :: k in items ==> items[k].createdAt > 0
    }

    ghost function Abs(): Cache
      reads this
    {
      Cache(items, stats, closed, maxSize)
    }

    constructor (config: Config)
      ensures Valid() && Abs() == NewCache(config)
      ensures maxSize == if config.maxSize <= 0 then 104857600 else config.maxSize
      ensures cleanupInterval == if config.cleanupInterval <= 0 then 300000 else config.cleanupInterval
    {
      var c := Defaulted(config);
      items := map[];
      stats := Stats(0, 0, 0, 0, 0, 0, 0);
      closed := false;
      maxSize := c.maxSize;
      cleanupInterval := c.cleanupInterval;
    }

    /** One pass over the map in any order; ties go to whichever comes first. */
    method FindOldest() returns (oldestKey: Key)
      requires items != map[] && forall k :: k in items ==> items[k].createdAt > 0
      ensures Oldest(items, oldestKey)
    {
      oldestKey := "";
      var oldestTime := 0;
      var todo := items.Keys;
      while todo != {}
        invariant todo <= items.Keys
        invariant oldestTime == 0 <==> todo == items.Keys
        invariant oldestTime != 0 ==> oldestKey in items && oldestTime == items[oldestKey].createdAt
        invariant oldestTime != 0 ==> forall k :: k in items && k !in todo ==> oldestTime <= items[k].createdAt
        decreases |todo|
      {
        var key :| key in todo;
        if oldestTime == 0 || items[key].createdAt < oldestTime {
          oldestKey := key;
          oldestTime := items[key].createdAt;
        }
        todo := todo - {key};
      }
    }

    method EvictLRU(need: nat) returns (ghost victims: seq<Key>)
      requires Valid() && !closed && EvictionSafe(items, need, maxSize)
      modifies this`items, this`stats
      ensures EvictionRun(old(items), old(stats).memory, need, maxSize, victims)
      ensures (items, stats.memory) == Evicted(old(items), old(stats).memory, victims)
      ensures stats == old(stats).(memory := stats.memory) && stats.memory == Usage(items)
      ensures forall k :: k in items ==> items[k].createdAt > 0
    {
      hide Usage, EvictionSafe;
      victims := [];
      ghost var all, memory := items, stats.memory;
      assert EvictionPrefix(all, memory, need, maxSize, victims);
      assert Evicted(all, memory, victims) == (all, memory);
      hide EvictionPrefix, Evicted;
      while stats.memory + need > maxSize && |items| > 0
        invariant stats == old(stats).(memory := stats.memory) && stats.memory == Usage(items)
        invariant forall k :: k in items ==> items[k].createdAt > 0
        invariant EvictionSafe(items, need, maxSize)
        invariant EvictionPrefix(all, memory, need, maxSize, victims)
        invariant Evicted(all, memory, victims) == (items, stats.memory)
        decreases |items|
      {
        var oldestKey := FindOldest();
        EvictMore(all, memory, need, maxSize, victims, items, oldestKey);
        victims := victims + [oldestKey];
        if oldestKey != "" {
          RemoveItem(oldestKey);
        }
      }
    }

    /** Deletes an item and gives its memory back; the other counters stay. */
    method RemoveItem(key: Key)
      requires key in items && stats.memory == Usage(items)
      modifies this`items, this`stats
      ensures items == old(items) - {key} && |items| < |old(items)|
      ensures stats == old(stats).(memory := old(stats).memory - old(items)[key].size)
      ensures stats.memory == Usage(items)
    {
      UsageRemove(items, key);
      assert items.Keys == (items - {key}).Keys + {key};
      var item := items[key];
      items := items - {key};
      stats := stats.(memory := stats.memory - item.size);
    }

    method MakeRoom(size: nat) returns (ghost victims: seq<Key>)
      requires Valid() && !closed && (stats.memory + size > maxSize ==> EvictionSafe(items, size, maxSize))
      modifies this`items, this`stats
      ensures EvictionRun(old(items), old(stats).memory, size, maxSize, victims)
      ensures (items, stats.memory) == Evicted(old(items), old(stats).memory, victims)
      ensures stats == old(stats).(memory := stats.memory) && stats.memory == Usage(items)
      ensures forall k :: k in items ==> items[k].createdAt > 0
    {
      victims := [];
      if stats.memory + size > maxSize {
        victims := EvictLRU(size);
      }
    }

    method Set(key: Key, encoded: Option<(Value, nat)>, ttl: int, clock: Clock)
      returns (r: Outcome, ghost t1: nat, ghost t2: nat, ghost victims: seq<Key>)
      requires Valid() && clock.last > 0
      requires !closed && encoded.Some? && stats.memory + encoded.value.1 > maxSize
               ==> EvictionSafe(items, encoded.value.1, maxSize)
      modifies this`items, this`stats, clock
      ensures Valid() && old(clock.last) <= t1 <= t2 == clock.last
      ensures (Abs(), r) == SetIn(old(Abs()), key, encoded, ttl, t1, t2, victims)
      ensures r == Ok ==> EvictionRun(old(items), old(stats).memory, encoded.value.1, maxSize, victims)
    {
      hide Usage, EvictionSafe, EvictionRun, Evicted;
      victims := [];
      t1, t2 := clock.last, clock.last;
      if closed {
        return ErrCacheClosed, t1, t2, victims;
      }
      if encoded.None? {
        stats := stats.(errors := stats.errors + 1);
        return ErrEncode, t1, t2, victims;
      }
      var (value, size) := encoded.value;
      victims := MakeRoom(size);
      ghost var kept, memory := items, stats.memory;
      var expiredAt := 0;
      if ttl > 0 {
        var now := clock.Now();
        t1 := now;
        expiredAt := now + ttl;
      }
      var now := clock.Now();
      t2 := now;
      Store(key, Item(value, expiredAt, now, size));
      r := Ok;
    }

    /** Puts an item in place of an older one, if any, keeping account of the memory. */
    method Store(key: Key, item: Item)
      requires !closed && stats.memory == Usage(items)
      modifies this`items, this`stats
      ensures items == old(items)[key := item] && stats.memory == Usage(items)
      ensures Abs() == Stored(old(Abs()), old(items), old(stats).memory, key, item)
    {
      hide Usage;
      UsagePut(items, key, item);
      if key in items {
        UsageRemove(items, key);
        stats := stats.(memory := stats.memory - items[key].size);
      } else {
        assert items - {key} == items;
      }
      items := items[key := item];
      stats := stats.(memory := stats.memory + item.size, sets := stats.sets + 1, totalKeys := |items|);
    }

    /** `decodes` tells whether the stored value fits the caller's destination. */
    method Get(key: Key, decodes: bool, clock: Clock) returns (r: Outcome, startsDelete: bool)
      requires Valid() && clock.last > 0
      modifies this`stats, clock
      ensures Valid() && old(clock.last) <= clock.last
      ensures (Abs(), r) == GetFrom(old(Abs()), key, clock.last, decodes)
      ensures startsDelete == StartsDelete(old(Abs()), key, clock.last)
    {
      startsDelete := false;
      if closed {
        return ErrCacheClosed, false;
      }
      if key !in items {
        stats := stats.(misses := stats.misses + 1);
        return ErrKeyNotFound, false;
      }
      var item := items[key];
      var now := clock.Now();
      if IsExpired(item, now) {
        stats := stats.(misses := stats.misses + 1);
        return ErrKeyNotFound, true;
      }
      stats := stats.(hits := stats.hits + 1);
      if !decodes {
        stats := stats.(errors := stats.errors + 1);
        return ErrDecode, false;
      }
      r := Hit(item.value);
    }

    method Delete(key: Key) returns (r: Outcome)
      requires Valid()
      modifies this`items, this`stats
      ensures Valid() && (Abs(), r) == DeleteFrom(old(Abs()), key)
    {
      if closed {
        return ErrCacheClosed;
      }
      if key in items {
        UsageRemove(items, key);
        var item := items[key];
        items := items - {key};
        stats := stats.(memory := stats.memory - item.size, deletes := stats.deletes + 1, totalKeys := |items|);
      }
      r := Ok;
    }

    method Exists(key: Key, clock: Clock) returns (found: bool)
      requires clock.last > 0
      modifies clock
      ensures old(clock.last) <= clock.last && found == ExistsIn(Abs(), key, clock.last)
    {
      if closed || key !in items {
        return false;
      }
      var now := clock.Now();
      found := !IsExpired(items[key], now);
    }

    method Clear() returns (r: Outcome)
      requires Valid()
      modifies this`items, this`stats
      ensures Valid() && (Abs(), r) == ClearOf(old(Abs()))
    {
      if closed {
        return ErrCacheClosed;
      }
      items := map[];
      stats := stats.(memory := 0, totalKeys := 0);
      r := Ok;
    }

    /** The counters, with the share of hits among all lookups. */
    method GetStats() returns (s: Stats, hitRatio: real)
      ensures s == stats.(totalKeys := |items|)
      ensures stats.hits + stats.misses > 0 ==> hitRatio * (stats.hits + stats.misses) as real == stats.hits as real
      ensures stats.hits + stats.misses == 0 ==> hitRatio == 0.0
    {
      hitRatio := 0.0;
      var total := stats.hits + stats.misses;
      if total > 0 {
        hitRatio := stats.hits as real / total as real;
      }
      s := stats.(totalKeys := |items|);
    }

    method Close()
      requires Valid()
      modifies this`items, this`closed
      ensures Valid() && Abs() == CloseOf(old(Abs()))
    {
      if closed {
        return;
      }
      closed := true;
      items := map[];
    }

    method FindExpired(clock: Clock) returns (expiredKeys: seq<Key>)
      requires clock.last > 0
      modifies clock
      ensures old(clock.last) <= clock.last && clock.last > 0
      ensures forall i, j :: 0 <= i < j < |expiredKeys| ==> expiredKeys[i] != expiredKeys[j]
      ensures Sweepable(items, KeySet(expiredKeys), old(clock.last), clock.last)
    {
      expiredKeys := [];
      var todo := items.Keys;
      while todo != {}
        invariant todo <= items.Keys && old(clock.last) <= clock.last
        invariant forall i, j :: 0 <= i < j < |expiredKeys| ==> expiredKeys[i] != expiredKeys[j]
        invariant forall k :: k in expiredKeys ==> k in items && k !in todo && IsExpired(items[k], clock.last)
        invariant forall k :: k in items && k !in todo && IsExpired(items[k], old(clock.last)) ==> k in expiredKeys
        decreases |todo|
      {
        var key :| key in todo;
        var now := clock.Now();
        if IsExpired(items[key], now) {
          expiredKeys := expiredKeys + [key];
        }
        todo := todo - {key};
      }
    }

    method RemoveAll(keys: seq<Key>)
      requires stats.memory == Usage(items)
      modifies this`items, this`stats
      ensures items == old(items) - KeySet(keys)
      ensures stats == old(stats).(memory := stats.memory) && stats.memory == Usage(items)
    {
      ghost var all := items;
      assert all - KeySet(keys[..0]) == all;
      hide Usage, KeySet;
      for i := 0 to |keys|
        invariant items == all - KeySet(keys[..i])
        invariant stats == old(stats).(memory := stats.memory) && stats.memory == Usage(items)
      {
        var key := keys[i];
        RemoveNext(all, keys, i);
        if key in items {
          RemoveItem(key);
        } else {
          assert items - {key} == items;
        }
      }
      assert keys[..|keys|] == keys;
    }

    method CleanupExpired(clock: Clock) returns (ghost removed: set<Key>)
      requires Valid() && clock.last > 0
      modifies this`items, this`stats, clock
      ensures Valid() && old(clock.last) <= clock.last
      ensures !old(closed) ==> Sweepable(old(items), removed, old(clock.last), clock.last)
      ensures Abs() == SweptOf(old(Abs()), removed)
    {
      removed := {};
      if closed {
        return;
      }
      hide Usage, KeySet;
      var expiredKeys := FindExpired(clock);
      RemoveAll(expiredKeys);
      removed := KeySet(expiredKeys);
      UsageSplit(old(items), removed);
      stats := stats.(totalKeys := |items|);
    }
  }
}
