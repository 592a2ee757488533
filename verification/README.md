# A verified model of ginny's stateful components

This project models six components of the ginny service framework in Dafny and
proves what they promise, for all inputs, all interleavings and all runs:

- the batching logger (`logger/batch.go`), a lock-based protocol of many goroutines over one bounded buffer;
- the gRPC connection pool (`client/pool.go`), with leases, health checks and shutdown;
- the in-memory cache (`cache/cache.go`), with expiry, eviction and background deletions;
- placeholder expansion in configuration text (`config/config.go`);
- redirect responses (`server/mux/redirect.go`, `server/mux/handler.go`);
- rate-limit rule matching (`interceptor/limit/routerlimit.go`).

`dafny verify dfyconfig.toml` checks everything.

## How the model is built

Each stateful component has three layers. *Sections*: what one lock-held piece of
code does, as a function on a plain state value (`BatchSections`, `ConnPooling`,
`MemoryCaching`). *Objects*: a class with the fields of the Go struct whose methods
perform the section in place and are proved to equal that function (arrays, loops,
in-place updates and aliasing are at this level). *Runs*: a transition system whose
steps are those same functions, with `Next` total (a step that is not possible
leaves the state unchanged) and `Exec` over any list of steps (`BatchProtocol`,
`PoolProtocol`, `CacheProtocol`), about which the invariants and main results are
proved (`BatchTheorems`, `PoolTheorems`, `CacheProtocol`).

Inputs the program cannot control are parameters of the steps: the order of
goroutines, dial outcomes and connection health, clock readings, map iteration order
(the choice of eviction victims), serialisation outcomes, environment variables.

The ideal cache is made from the clients' calls alone; `LastSet` finds what it holds in
the list of calls without looking at any cache (`IdealIsLastSet`).

History fields (`accepted`, `batches`, `log`, `dialled`, `shut`, `dropped`, `ideal`,
`evicted`, ...) only record what happened; no step's effect on the real fields
depends on them.

`PoolAnswers` and `CacheAnswers` say field by field, with the numbers and conditions
written out, what each operation answers and changes; `MatchAnswers` does so for the
rate limit. Configured sizes and defaults are written out as well wherever a run
starts.

The scanners use one recursive function each as specification (`Expand`, `Escape`,
`Decode`, `HtmlEscape`, `HtmlUnescape`, `JoinKey`), proved equal to the loops and then
related to independent inverses or readings.

## Where the code does not do what one would expect

- A leased connection that a health check finds unhealthy is removed from the pool but
  still counts as current and active for ever, and is never shut. The pool can never
  lease again exactly when `maxSize` connections were dropped this way
  (`ExhaustedIffAllDropped`, `ExhaustedIffLeasesLost`, with the concrete run
  `LeakExample`). The published counters are right, and closing shuts everything,
  exactly when no check ever found a leased connection unhealthy (`CountersTruthful`,
  `ShutdownShutsAllButDropped`).
- `IdleConns` is `minSize` too low, because the constructor does not count the initial
  connections (`CountersConserved`, `CountersTruthful`).
- Entries are dropped in some run exactly when the flush size exceeds the buffer size
  (`NeverDropsIffFlushSizeFits`).
- The eviction loop treats the empty key as "nothing found". It can run for ever exactly
  when the empty key is stored and dropping everything strictly older than its item
  would not make room (`EvictionStopsIffSafe`, with the reachable cache
  `EndlessEvictionExample`); `Set` requires just the opposite.
- The eviction is named after least recent use, but reading an item does not protect it: the
  victim is always an item created earliest (`EvictionOldestFirst`, `GetKeepsVictims`, with
  the concrete run `ReadItemEvictedExample`).
- A background deletion started by a lookup of an expired item can delete a newer item
  of that key; agreement with an ideal cache is lost by exactly such a deletion or by an
  eviction of an unexpired item (`StepKeepsAgreement`, with the concrete run
  `LateDeleteExample`).
- Escaping leaves percent signs alone, so percent-decoding gives the target back exactly
  when it contains no percent sign followed by two hexadecimal digits
  (`DecodeInvertsIffNoTriplet`, with the concrete input `TripletExample`).
- Counting keys join values with dots, so requests with different values can share one:
  exactly when their values have the same segments between dots (`RequestsShareKeyIff`,
  with concrete requests in `KeysCanCollide`). A rule is free of such collisions exactly
  when it lists at most one distinct header (`SeparatesIffOneHeader`).

## Model

| member | source | states |
|---|---|---|
| BatchSections.BatchLogger.constructor | logger/batch.go:50-74 | defaults are applied; the buffer is empty with the configured capacity, all counters zero |
| BatchSections.BatchLogger.AppendEntry | logger/batch.go:111-126 | a full buffer only counts a drop; otherwise the entry goes to the end in place, and the caller must flush exactly when the flush size is reached |
| BatchSections.BatchLogger.CutBatch | logger/batch.go:130-144 | a fresh array holds the buffered entries, the buffer is truncated on the same backing array, counters and average are updated |
| BatchSections.BatchLogger.WriteBatch | logger/batch.go:153-166 | however other goroutines add entries and log lines of their own before each one: the line at each entry's place in the shared log has that entry's level, message and fields, and the entries come in order |
| BatchSections.BatchLogger.FlushBuffer | logger/batch.go:130-150 | whatever others add, cut and log between any two writes while the lock is free, the copied batch is not disturbed: the shared log grows by exactly the buffered entries woven into the others' lines |
| BatchSections.BatchLogger.Add | logger/batch.go:103-127 | adding flushes exactly when the entry was accepted and the flush size is reached, and then all buffered entries are woven into the shared log |
| BatchSections.WovenKeepsOrder | logger/batch.go:147-166 | each of a goroutine's lines is in the shared log, at increasing positions |
| BatchSections.WovenNothingElse | logger/batch.go:147-166 | the woven log holds exactly the goroutine's lines and the others' lines, as multisets |
| BatchSections.AppendExtendsBuffer | logger/batch.go:115-121 | appending extends the buffer by the entry and counts it, or leaves it and counts a drop |
| BatchProtocol.NextKeepsInv | logger/batch.go:103-210 | every step of every goroutine keeps mutual exclusion, batch ownership, shuffle, order, counters and bounds |
| BatchProtocol.ReachableInv | logger/batch.go:50-210 | the invariant holds after any interleaving of any length |
| BatchProtocol.CutKeepsWriters | logger/batch.go:135-148 | a cut gives the new batch to exactly one goroutine, at position zero |
| BatchProtocol.WriteKeepsShuffle | logger/batch.go:153-166 | logging the next entry of one batch extends that batch's prefix in the log and no other |
| BatchTheorems.NothingLostOrDuplicated | logger/batch.go:103-166 | in every run, batches in cut order followed by the buffer are the accepted entries in lock order; the log is a shuffle of batch prefixes, each in order and each line with the level, message and fields of its entry; written, unwritten and buffered lines together are the accepted ones as multisets |
| BatchTheorems.BatchNeverOverwritten | logger/batch.go:135-149 | the array a goroutine writes from keeps the cut batch's contents in every later state, although the backing array is reused; the capacity never changes |
| BatchTheorems.StatsExact | logger/batch.go:111-144 | in every reachable state total = batched + buffered, flushes <= batched <= flushes * min(flush size, capacity), every batch has 1 to that many entries, the average is exact, and with the lock free the buffer is below the flush size |
| BatchTheorems.NeverDropsIffFlushSizeFits | logger/batch.go:51-59 | no run drops an entry if and only if the defaulted flush size is at most the buffer size |
| BatchTheorems.CloseFlushesEverything | logger/batch.go:169-210 | if all clients have returned before Close and none calls again, then when Close returns the buffer is empty and the log is a permutation of everything accepted, even with a ticker flush under way |
| BatchTheorems.CloseCutsEverything | logger/batch.go:169-210 | with clients still at work: when Close returns, everything accepted before the channel was closed has been cut, in order, and every batch not completely written is just being written by a client |
| BatchTheorems.QuietConservation | logger/batch.go:130-166 | whenever nobody is writing, log and buffer together are a permutation of everything accepted |
| BatchTheorems.FlushReturns | logger/batch.go:130-196 | when a flush returns, be it manual, of a tick or the last one, everything accepted before its call has been cut, in order, and every batch its goroutine has cut is completely written |
| BatchTheorems.AddReturns | logger/batch.go:103-127 | when an adding call returns, its entry has been accepted during the call or a drop was counted, and every batch its goroutine has cut is completely written |
| BatchTheorems.NoDeadlock | logger/batch.go:111-150 | while some goroutine is under way, some goroutine can move |
| BatchTheorems.CloseCanReturn | logger/batch.go:169-210 | from every reachable state after the stop channel is closed, some schedule without new client calls makes Close return |
| BatchTheorems.CloseReturns | logger/batch.go:206-210 | in every reachable state Close can be called and, without new client calls, return |
| ConnPooling.NewConnPool | client/pool.go:62-100 | dials the minimum size; on a failed dial everything dialled is shut and the pool is unusable |
| ConnPooling.ConnPool.Get | client/pool.go:103-146 | leases the first idle healthy connection in place, else dials within the limit, else fails with the right error and counters |
| ConnPooling.ConnPool.Put | client/pool.go:149-169 | marks the first connection with that identity idle if it was in use; otherwise nothing changes |
| ConnPooling.ConnPool.Close | client/pool.go:182-201 | shuts every pooled connection once and empties the pool; a second close does nothing |
| ConnPooling.ConnPool.CheckHealth | client/pool.go:231-270 | one round is the pass over the connections followed by the refill; nothing on a closed pool |
| ConnPooling.ConnPool.SweepConns | client/pool.go:239-256 | the pass in place: healthy kept, idle unhealthy shut and uncounted, leased unhealthy only forgotten |
| ConnPooling.ConnPool.RefillConns | client/pool.go:259-267 | dials idle connections until the minimum is reached or a dial fails |
| ConnPooling.PooledClientConn.Close | client/pool.go:282-291 | the first close returns the connection, later ones leave the pool unchanged |
| ConnPooling.GetPooled | client/pool.go:294-304 | an open wrapper for the connection obtained, or the pool's error |
| PoolProtocol.NewPoolOutcome | client/pool.go:62-100 | a new pool has exactly the minimum size of idle connections and an idle counter of zero; a failed one has shut all it dialled |
| PoolProtocol.SweepOutcome | client/pool.go:239-256 | the pass keeps exactly the healthy connections in order, shuts exactly the idle unhealthy ones and forgets exactly the leased unhealthy ones |
| PoolProtocol.RefillOutcome | client/pool.go:259-267 | only fresh idle connections are appended, and fewer than needed only when a dial failed |
| PoolTheorems.GetOutcome | client/pool.go:103-146 | a leased connection was leased by nobody and not shut, and is the only one newly in use; a failure changes only counters |
| PoolTheorems.PutOutcome | client/pool.go:149-169 | giving back takes exactly that connection out of use |
| PoolTheorems.HealthRoundOutcome | client/pool.go:231-270 | a round keeps the healthy connections in order followed by fresh ones, shuts no in-use connection, and ends below the minimum only after a failed dial |
| PoolTheorems.NextKeepsInv | client/pool.go:103-304 | every step keeps the accounting of connections, the counters and the leases |
| PoolTheorems.ReachableInv | client/pool.go:62-304 | the invariant holds in every run with health checks and shutdown at any time |
| PoolTheorems.LeasesExclusive | client/pool.go:103-304 | no connection is leased to two wrappers; while open, a pooled connection is in use if and only if it has a live lease, no leased connection is shut, and at most maxSize leases are outstanding |
| PoolTheorems.CountersConserved | client/pool.go:86-141 | while open: dialled - shut = current = pooled + dropped <= maxSize, active = in use + dropped, idle = idle pooled - minSize, current = active + idle + minSize |
| PoolTheorems.DroppedIsLost | client/pool.go:239-256 | over a run the connections forgotten are as many as the leases that its checks found unhealthy, and none if and only if no check found one |
| PoolTheorems.CountersTruthful | client/pool.go:172-179 | in every run: the published total and active counts describe the pooled connections if and only if no check found a leased connection unhealthy, the idle count if and only if minSize is zero |
| PoolTheorems.CheckSparesLeases | client/pool.go:240-255 | a health check shuts no leased connection |
| PoolTheorems.RequestsConserved | client/pool.go:111-145 | every counted request became a wrapper or a counted error |
| PoolTheorems.ClosedIsFinal | client/pool.go:107-109 | after close no step dials, leases, returns or shuts anything |
| PoolTheorems.ShutdownShutsAllButDropped | client/pool.go:190-198 | after close every connection ever dialled is shut except exactly the lost leases; all are shut if and only if no check found a leased connection unhealthy |
| PoolTheorems.PhasesOnlyAdvance | client/pool.go:282-291 | a wrapper never goes back to an earlier phase and never changes its connection |
| PoolTheorems.RepeatedCloseIsNoOp | client/pool.go:286-289 | closing a closed wrapper again changes nothing in any later state |
| PoolTheorems.ExhaustedIffAllDropped | client/pool.go:126-145 | an open pool can never lease again if and only if maxSize connections were dropped while leased |
| PoolTheorems.ExhaustedIffLeasesLost | client/pool.go:126-145 | after a run an open pool can never lease again if and only if the checks of that run found maxSize leases unhealthy |
| PoolTheorems.LeakExample | client/pool.go:243-256 | a concrete run in which one failed check during a lease exhausts a pool of one |
| PoolAnswers.GetAnswers | client/pool.go:103-146 | a closed pool refuses; an open one leases the lowest-indexed idle healthy connection, stamped and counted; it dials only when every pooled connection is in use or unhealthy; "no connection" comes only at the limit |
| PoolAnswers.PutAnswers | client/pool.go:149-169 | the first connection with the identity becomes idle, stamped and counted, if it was in use; otherwise nothing changes |
| PoolAnswers.CloseAnswers | client/pool.go:182-201 | closing shuts exactly the pooled connections and empties the pool; a second close changes nothing |
| PoolAnswers.CheckAnswers | client/pool.go:231-270 | healthy connections stay in order, exactly the idle unhealthy ones are shut and uncounted, exactly the leased unhealthy ones forgotten, and fresh idle ones added up to the minimum or a failed dial; every other field stays |
| PoolAnswers.HealthyParts | client/pool.go:239-256 | what a check keeps of a list is what it keeps of its parts, in order, and a single connection exactly when it is healthy |
| PoolAnswers.NewPoolAnswers | client/pool.go:62-100 | one fresh idle connection for each of the first dials up to the configured minimum (capped by the maximum, with defaults 10 and 1), or exactly the connections dialled before the first failure shut |
| PoolAnswers.ShutdownCloses | client/pool.go:182-201 | a run ends with the pool closed exactly when it began closed or a shutdown occurs in it |
| PoolAnswers.LimitsKept | client/pool.go:63-74 | in every run the limits are the configured ones, and the leases outstanding in an open pool are within them |
| MemoryCaching.MemoryCache.constructor | cache/cache.go:72-91 | defaults are applied and the cache is empty and open |
| MemoryCaching.MemoryCache.FindOldest | cache/cache.go:290-298 | for any iteration order the key found has a smallest creation time |
| MemoryCaching.MemoryCache.EvictLRU | cache/cache.go:287-307 | the loop terminates on every safe cache and performs a complete oldest-first eviction with exact memory accounting |
| MemoryCaching.MemoryCache.Set | cache/cache.go:129-173 | eviction, overwriting and accounting in place, with the clock read for the deadline and again for the creation time |
| MemoryCaching.MemoryCache.Get | cache/cache.go:94-126 | hit, miss, expired and undecodable cases with their counters, and when a background deletion is started |
| MemoryCaching.MemoryCache.Delete | cache/cache.go:176-192 | removes the item and its memory, counts only real deletions |
| MemoryCaching.MemoryCache.Exists | cache/cache.go:195-209 | true exactly for a stored unexpired key of an open cache |
| MemoryCaching.MemoryCache.Clear | cache/cache.go:212-225 | no items, no memory, no keys |
| MemoryCaching.MemoryCache.GetStats | cache/cache.go:228-240 | the counters with the hit ratio, which times the lookups gives the hits |
| MemoryCaching.MemoryCache.Close | cache/cache.go:243-256 | closes once and drops the items |
| MemoryCaching.MemoryCache.FindExpired | cache/cache.go:333-338 | every item expired at the start is found, and nothing unexpired at the end |
| MemoryCaching.MemoryCache.CleanupExpired | cache/cache.go:325-348 | removes exactly the keys found, with their memory, and recounts the keys |
| MemoryCaching.SafeStep | cache/cache.go:289-306 | where a safe cache has to evict, no iteration order picks the empty key, and the rest stays safe |
| CacheProtocol.EvictionOldestFirst | cache/cache.go:287-307 | a complete eviction removes a shortest oldest-first prefix: nothing kept is older than anything removed, the item did not fit before each removal, and fits or nothing is left afterwards |
| CacheProtocol.EvictionStopsIffSafe | cache/cache.go:287-307 | the loop can get stuck on the empty key if and only if it is stored and dropping the strictly older items would not make room |
| CacheProtocol.EndlessEvictionExample | cache/cache.go:289-306 | one Set under the empty key into a cache of size one: the next Set that needs room finds no terminating eviction |
| CacheProtocol.StoredOutcome | cache/cache.go:155-170 | storing keeps memory and key count exact and the limit, also when the overwritten key was itself evicted |
| CacheProtocol.NextKeepsInv | cache/cache.go:94-348 | every operation, sweep and background deletion keeps accounting, limit, balance and the sub-map relation |
| CacheProtocol.ReachableInv | cache/cache.go:72-348 | the invariant holds in every run |
| CacheProtocol.AccountingExact | cache/cache.go:145-170 | while open: memory is the sum of the sizes, keys are counted exactly, memory is within the limit or one item is stored, and sets = stored + overwritten + evicted + swept + deleted + cleared |
| CacheProtocol.IdealIsLastSet | cache/cache.go:129-225 | the ideal map holds for each key exactly what the last successful Set in the list of calls was given, unless a Delete of the key or a Clear came later |
| CacheProtocol.HitsAreLatest | cache/cache.go:94-126 | in every run a hit is the value given to the last Set of that key in the list of calls since its last Delete or Clear, and the time to live given there is not over |
| CacheProtocol.StepKeepsAgreement | cache/cache.go:145-192 | a step loses agreement with the ideal cache if and only if it evicts another unexpired item or a background deletion meets an unexpired one |
| CacheProtocol.LateDeleteOnlyAfterReset | cache/cache.go:108-114 | a background deletion does harm only when the key was set again after it was started |
| CacheProtocol.LateDeleteExample | cache/cache.go:106-114 | a concrete run: the deletion started for an expired item removes the item set afterwards |
| CacheProtocol.LosslessIsIdeal | cache/cache.go:94-209 | in runs without such steps Get and Exists answer at every moment from the value and time to live given to the last Set in the list of calls |
| CacheProtocol.GetKeepsVictims | cache/cache.go:94-126 | a Get changes no item, and the same evictions are possible after it as before |
| CacheProtocol.ReadItemEvictedExample | cache/cache.go:287-307 | a concrete run in which the item read a moment ago is evicted and one never read stays |
| CacheAnswers.GetAnswers | cache/cache.go:94-126 | a lookup answers closed, not found, hit or undecodable exactly as the stored item and its deadline say, with one hit or one miss and an error for the undecodable value; a deletion is started exactly for an expired stored item |
| CacheAnswers.SetAnswers | cache/cache.go:129-173 | what is stored is the value, the deadline from the first clock reading, the second clock reading and the size, among what the eviction kept, with exact counters; nothing on a closed cache or failed encoding |
| CacheAnswers.DeleteAnswers | cache/cache.go:176-192 | exactly the key's item goes, with its memory, and counts only when there was one |
| CacheAnswers.SweepAnswers | cache/cache.go:325-348 | a sweep removes everything expired when it begins and nothing fresh when it ends, and touches nothing else |
| CacheAnswers.LimitKept | cache/cache.go:72-91 | in every run the limit is the configured one or 100 megabytes, exceeded by an open cache only with a single item |
| CacheAnswers.LookupsCounted | cache/cache.go:94-126 | in every run hits and misses add up to the lookups of the open cache; hits are at most the lookups of keys whose last Set is alive, and as many in runs without losses |
| EnvExpansion.GetShellName | config/config.go:146-161 | name and width as specified, for every text that starts with an opening brace |
| EnvExpansion.ShellNameSpan | config/config.go:149-160 | a nonzero width ends on the first closing brace with no breaking character before it and the name is what is between; width zero means there is no such brace |
| EnvExpansion.ExpandEnv | config/config.go:117-142 | the scanner with its two indices and lazily made buffer equals the recursive one-pass substitution for every text and environment |
| EnvExpansion.ExpandUnchanged | config/config.go:138-140 | a text without placeholder start comes back unchanged |
| EnvExpansion.PiecesPrintBack | config/config.go:121-142 | the pieces a text is read as print back to that text |
| EnvExpansion.PiecesProper | config/config.go:149-158 | every name read is non-empty and free of closing braces, blanks, newlines and quotes |
| EnvExpansion.ExpandIsSubstitution | config/config.go:121-142 | expansion renders the pieces that the scanner finds |
| EnvExpansion.ExpandSubstitutes | config/config.go:117-161 | a text has exactly one reading as single characters and proper placeholders with no character read alone where a placeholder opens, and expansion replaces the named placeholders of that reading by the values that the environment gives them (nothing when unset), drops the empty ones and keeps the rest |
| EnvExpansion.ExpandTemplate | config/config.go:117-142 | printing a template and expanding it yields its literals and values, and values are never scanned again |
| Redirecting.HexEscapeNonASCII | server/mux/redirect.go:31-53 | both loops together produce the escaped form, unchanged when the lengths agree |
| Redirecting.EscapeLength | server/mux/redirect.go:32-42 | the precomputed length is the result's length, and equals the input's if and only if the input is ASCII |
| Redirecting.EscapeParts | server/mux/redirect.go:43-52 | byte by byte: below 128 unchanged, from 128 on a percent sign and the two lower-case digits of its value in base 16 |
| Redirecting.EscapeIdempotent | server/mux/redirect.go:31-53 | the result is ASCII and escaping it again changes nothing |
| Redirecting.DecodeInvertsIffNoTriplet | server/mux/redirect.go:43-52 | percent-decoding (section 2.1 of RFC 3986) gives the text back if and only if the text contains no triplet of its own |
| Redirecting.DecodeInvertsWithoutPercent | server/mux/redirect.go:43-52 | in particular for every text without a percent sign |
| Redirecting.EscapeInjective | server/mux/redirect.go:43-52 | texts without triplets with the same escaped form are equal |
| Redirecting.TripletExample | server/mux/redirect.go:48-50 | a concrete text that decoding does not give back |
| Redirecting.UnescapeInverts | server/mux/redirect.go:21-29 | a reader of HTML that knows the named references and computes decimal ones from their digits gets every text back |
| Redirecting.EscapeHarmless | server/mux/redirect.go:21-29 | no quote, apostrophe or angle bracket is left |
| Redirecting.HrefIsLocation | server/mux/handler.go:97-102 | the link's attribute, read up to its closing quote and unescaped, is exactly the location |
| Redirecting.Redirect | server/mux/redirect.go:14-19 | a body marked as a location that holds the escaped target |
| Redirecting.ForwardResponseOption | server/mux/handler.go:94-107 | for a location body the Location and Content-Type headers, status 302 and the page with the escaped link, byte for byte; everything unchanged for other messages |
| Redirecting.RedirectRoundTrip | server/mux/redirect.go:14-53 | header and page are ASCII, the header decodes to the target if and only if it has no triplets, and the link leads to the header's value |
| RouterLimiting.MapGet | interceptor/limit/routerlimit.go:149-161 | the search loop returns the printed value of the first field with the key, or nothing |
| RouterLimiting.FirstFieldSpec | interceptor/limit/routerlimit.go:149-161 | the first field with the key decides, a missing key reads as empty |
| RouterLimiting.GetQuota | interceptor/limit/routerlimit.go:62-88 | the loop builds key and message from the present headers in order; no limit for a negative quota or when no header is present |
| RouterLimiting.Match | interceptor/limit/routerlimit.go:32-60 | disabled, blocked, first rule with a fitting prefix, or the default |
| RouterLimiting.MatchAnswers | interceptor/limit/routerlimit.go:32-88 | for every limit, path and getter: -1 when disabled; 0 without a key, naming the first such entry, when a block entry is met; -1 under a negative quota or with no listed header present; else quota and duration of the first rule in order whose prefix fits, or of the default |
| RouterLimiting.GetterReads | interceptor/limit/routerlimit.go:149-171 | a map reads as the first field with the key, printed when it is no string; a header as its first value; otherwise empty |
| RouterLimiting.KeyParts | interceptor/limit/routerlimit.go:74-80 | header by header, in the rule's order, a present value adds a dot and itself to the key and its name to the message |
| RouterLimiting.MatchDependsOnKeys | interceptor/limit/routerlimit.go:32-88 | getters that agree on the block-list keys and the selected rule's headers give the same result |
| RouterLimiting.JoinKeyInjective | interceptor/limit/routerlimit.go:74-80 | keys of dot-free values are equal if and only if the value lists are |
| RouterLimiting.KeysSeparateRequests | interceptor/limit/routerlimit.go:62-88 | two unblocked requests under one counting rule with the same non-empty set of present headers and dot-free values share a key if and only if all those values are equal |
| RouterLimiting.KeysEqualIffSameSegments | interceptor/limit/routerlimit.go:74-80 | any two lists of values make the same key if and only if, cut at their dots, they have the same segments in order |
| RouterLimiting.RequestsShareKeyIff | interceptor/limit/routerlimit.go:32-88 | two unblocked requests under one counting rule share a key if and only if their present values have the same segments |
| RouterLimiting.SeparatesIffOneHeader | interceptor/limit/routerlimit.go:62-88 | a counting rule gives different keys to requests that differ on its headers if and only if it lists at most one distinct header, whether or not only requests with the same headers present are compared |
| RouterLimiting.KeysCanCollide | interceptor/limit/routerlimit.go:32-88 | concrete requests that share a key: with the same headers present and a dot in a value, and with different headers present |

## Left out

- Counters are unbounded integers: overflow of the 64-bit counters is not modelled.
- Averages and ratios in the statistics are real numbers: floating-point rounding is not modelled.
- Fairness: that a goroutine waiting for the lock eventually gets it is not assumed, so `CloseCanReturn` states that Close can return, not that it must.
- A second `Close` of the batching logger panics in the original; here a closed stop channel simply stays closed.
- Entry levels other than the four that the public methods pass, `Fatal`, the global batch-logger wrappers and level filtering of the underlying logger.
- Time inside one pool operation: every operation reads the clock once.
- Raw use of `Get` and `Put` that returns a connection twice, or that closes the connection itself: the lease results are about the wrapper protocol.
- gRPC dialling, connectivity states and tickers: dial outcomes, health and ticks are inputs.
- Races on the hit and miss counters, which `Get` updates under a read lock: every cache operation is one step.
- Serialising and deserialising values, including the panic on stored non-string values: values are opaque with a size, and both outcomes are inputs.
- Accounting of a closed cache or pool: the counters are not reset there, so the accounting is stated for open ones.
- Expiry deadlines are exact sums; overflow of durations is not modelled.
- The token bucket behind the rate limit (`interceptor/limit/rate.go`): its source is not part of this model.
- Header name canonicalisation and header sanitising of the HTTP library.
- `server/mux/rewriter`, tracing, tags, authentication, middleware, health endpoints, server start-up, generated code and the rest of configuration loading: they would add wiring or easy members only.
