# In-process key/value cache with per-entry TTL

This project models the cache engine of a small key/value server. The engine
is a string-keyed map of `CacheEntry` records. Each record holds a value, an
expiration instant and an `Expiry` flag. The engine has five operations:

- `Init` creates an empty cache.
- `Set` stores a never-expiring entry, with a far-future expiration as a placeholder.
- `SetT` stores an entry that expires at `now + duration`.
- `Get` reads with a lazy expiration check. It returns `(value, found)`.
- `CleanUp` is a background sweeper. One pass deletes every expiring entry whose expiration is before the pass's instant.

The reader/writer lock is abstracted away. Each locked region is one atomic
step over an immutable `Cache` value. The wall clock is abstracted away too:
every operation that reads the clock takes the instant `now` (nanoseconds
since the Unix epoch) as a parameter.

- `cache.dfy` (module `KvCache`) holds the data model and the operations. Its
  lemmas cover read-after-write, overwrite, TTL visibility, the frame of the
  writes, and the sweep's properties.
- `trace.dfy` (module `CacheTrace`) models histories of atomic steps. It proves
  that a reader sees exactly what the last write to its key implies, as long
  as every sweep after that write is dated no later than the read. This is
  the ordinary case. `CleanUp` reads the clock (cache.go:57) before it takes
  the lock (cache.go:58), and `Get` reads the clock while it holds the read
  lock (cache.go:48). So a sweep that precedes a read in lock order is dated
  no later than the read, unless the wall clock steps back; `UnixNano` is
  wall time, not a monotonic clock. `KvCache.SweepAheadOfReader` shows what a
  read can miss when the clock does step back.

The read test is `Expiry && Expiration < now`. The sweep test is
`now > Expiration && Expiry`. Both are the same comparison. This is why a
pass only deletes entries that readers at its instant or later already cannot
see.

## Model

| member | source | states |
|---|---|---|
| KvCache.Init | cache.go:22-26 | a new cache holds no keys |
| KvCache.Get | cache.go:44-52 | found exactly when the key is present and its entry is non-expiring or expires no earlier than `now`; a hit returns the stored value, and a miss returns `("", false)`; the cache is not changed |
| KvCache.Set | cache.go:28-33 | the key set grows by exactly `key`; a read of `key` at any instant, earlier or later, returns `(value, true)`; every other key's entry is unchanged |
| KvCache.SetT | cache.go:35-40 | the key set grows by exactly `key`; a read of `key` at `t` returns `(value, true)` when `t <= now + duration` and a miss otherwise; every other key's entry is unchanged |
| KvCache.Sweep | cache.go:57-63 | keys only disappear; a present key survives exactly when its entry is non-expiring or expires at or after `now`; survivors are unchanged; non-expiring entries always survive |
| KvCache.CleanUpPass | cache.go:57-64 | visiting the keys in any order and deleting the expired ones gives the whole-map sweep, and leaves no entry that is expired at `now` |
| KvCache.InitReadsNothing | cache.go:22-26 | every key reads as `("", false)` at every instant in a fresh cache |
| KvCache.SetOverwrites | cache.go:28-33 | a second `Set` to the same key gives the same state as if the first had never happened |
| KvCache.SetTOverwrites | cache.go:28-40 | the same holds for any mix of `Set` and `SetT` on one key: the later write fully replaces the earlier |
| KvCache.WritesFrameOtherKeys | cache.go:28-40 | `Set` and `SetT` never change what a read of any other key returns |
| KvCache.NonPositiveTtl | cache.go:38-51 | a negative duration hides the entry from every read at or after the write instant; among reads at or after the write instant, a zero duration leaves it visible only at exactly that instant |
| KvCache.SweepIdempotent | cache.go:59-63 | a second pass at the same instant deletes nothing more |
| KvCache.SweepCompose | cache.go:57-63 | two passes equal one pass at the later of their instants |
| KvCache.SweepUnobservable | cache.go:48-61 | for a pass at `swept` and a read at `now >= swept`, the read returns the same result before and after the pass |
| KvCache.SweepAheadOfReader | cache.go:48-61 | a pass dated after a read can hide an entry that read would have seen, so the condition above is needed |
| CacheTrace.ReadSeesLastWrite | cache.go:28-64 | after any history in which every sweep following the last write to the key is dated no later than `t`, a read at `t` returns what the last write to the key implies, or what the starting state held if the key was never written |
| CacheTrace.FreshReadSeesLastWrite | cache.go:22-64 | starting from `Init`, a key no step wrote reads as a miss after any history; when every sweep after the last write is dated no later than `t`, the read is determined by that write alone |
| CacheTrace.LateSweepThenRewrite | cache.go:28-63 | after any history, a sweep dated after the read followed by a `Set` of the key leaves the read returning the value of that `Set` |
| CacheTrace.KeysComeFromWrites | cache.go:28-63 | every key present after a history was present at the start or written by some step |

A zero duration does not hide the entry at its own write instant. `Get` hides
an entry only when `Expiration < now` (cache.go:48), so a read at exactly
`now + 0` still finds it; see `KvCache.NonPositiveTtl`.

## Left out

- The HTTP server in `main` (cache.go:68-115) is transport glue over a web framework. This covers routing, query parsing, JSON responses and duration-parsing error reports.
- The `go cache.Set` / `go cache.SetT` fire-and-forget dispatch and the `sync.RWMutex` exist only for concurrency. Each locked region is modelled as one atomic step. `CacheTrace` models the resulting interleavings as arbitrary sequences of steps.
- The infinite loop and the one-minute `time.Sleep` in `CleanUp` are not modelled. `KvCache.CleanUpPass` models a single pass. A sequence of passes is expressed as `CleanUpOp` steps in a history.
- `time.Now()` is replaced by the `now` parameter of every operation that reads the clock.
- `KvCache.Set`: the placeholder expiration is `now` plus 365 days. The calendar arithmetic of `AddDate(1, 0, 0)` is not modelled because the placeholder is never consulted for a non-expiring entry.
- Instants and durations are unbounded integers. The int64 nanosecond overflow of `now + duration` is not modelled.
- loadtest.go is not part of this model. It is an HTTP load generator with no cache logic.
