/**
 The cache engine of a small key/value server: a string-keyed map of entries,
 each carrying a value, an absolute expiration instant and a flag saying
 whether that instant matters at all.

 The engine's lock is abstracted away: every operation below is one atomic
 step over an immutable `Cache` value. The wall clock is abstracted away too:
 every operation that reads the clock takes the instant as an explicit
 parameter `now`, in nanoseconds since the Unix epoch.
 */
module KvCache {

  type Key = string
  type Value = string

  /** Instants and durations, in nanoseconds (the engine's int64 range is not enforced). */
  type Nanos = int

  /** How far ahead a non-expiring entry's stored expiration lies: one year of
      365 days. The stored instant is never consulted for such an entry. */
  const OneYear: Nanos := 365 * 24 * 60 * 60 * 1_000_000_000

  /** One stored entry. `expiry == false` means the entry never expires and
      `expiration` is only a far-future placeholder. */
  datatype CacheEntry = CacheEntry(value: Value, expiration: Nanos, expiry: bool)

  /** The engine's state: at most one entry per key. */
  datatype Cache = Cache(data: map<Key, CacheEntry>)

  /** What a read returns: the value and whether it was found. A miss always
      carries the empty string, so callers must look at `found`. */
  datatype Lookup = Lookup(value: Value, found: bool)

  const Miss: Lookup := Lookup("", false)

  /** A fresh engine: no entries at all. */
  function Init(): (c: Cache)
    ensures c.data.Keys == {}
  {
    Cache(map[])
  }

  /** Lazy expiration check on read: a missing key, or an expiring entry whose
      expiration lies strictly before `now`, reads as a miss. Reading never
      changes the cache (the result carries no cache). */
  function Get(c: Cache, key: Key, now: Nanos): (r: Lookup)
    ensures r.found <==> key in c.data && (!c.data[key].expiry || now <= c.data[key].expiration)
    ensures r.found ==> r.value == c.data[key].value
    ensures !r.found ==> r == Miss
  {
    if key !in c.data || (c.data[key].expiry && c.data[key].expiration < now) then
      Miss
    else
      Lookup(c.data[key].value, true)
  }

  /** Insert or replace the entry for `key` with one that never expires. */
  function Set(c: Cache, key: Key, value: Value, now: Nanos): (c': Cache)
    ensures c'.data.Keys == c.data.Keys + {key}
    ensures forall t :: Get(c', key, t) == Lookup(value, true)
    ensures forall k :: k in c.data && k != key ==> c'.data[k] == c.data[k]
  {
    Cache(c.data[key := CacheEntry(value, now + OneYear, false)])
  }

  /** Insert or replace the entry for `key` with one that expires `duration`
      after `now`. A zero or negative duration is accepted as is. */
  function SetT(c: Cache, key: Key, value: Value, duration: Nanos, now: Nanos): (c': Cache)
    ensures c'.data.Keys == c.data.Keys + {key}
    ensures forall t :: t <= now + duration ==> Get(c', key, t) == Lookup(value, true)
    ensures forall t :: t > now + duration ==> Get(c', key, t) == Miss
    ensures forall k :: k in c.data && k != key ==> c'.data[k] == c.data[k]
  {
    Cache(c.data[key := CacheEntry(value, now + duration, true)])
  }

  /** The deletion test of one sweep pass, in the form the sweeper writes it. */
  predicate SweepDeletes(e: CacheEntry, now: Nanos)
  {
    now > e.expiration && e.expiry
  }

  /** One sweep pass at instant `now`, as a whole-map reference definition:
      every entry the pass would delete is gone, every other entry is kept
      untouched. */
  function Sweep(c: Cache, now: Nanos): (c': Cache)
    ensures c'.data.Keys <= c.data.Keys
    ensures forall k :: k in c.data ==> (k in c'.data <==> !c.data[k].expiry || c.data[k].expiration >= now)
    ensures forall k :: k in c'.data ==> c'.data[k] == c.data[k]
    ensures forall k :: k in c.data && !c.data[k].expiry ==> k in c'.data
  {
    Cache(map k | k in c.data && !SweepDeletes(c.data[k], now) :: c.data[k])
  }

  /** One iteration of the background sweeper: visit every key once, in an
      arbitrary order, and delete the entry under it when it has expired at
      the instant `now` taken before the pass. */
  method CleanUpPass(c: Cache, now: Nanos) returns (c': Cache)
    ensures c' == Sweep(c, now)
    ensures forall k :: k in c'.data ==> !c'.data[k].expiry || now <= c'.data[k].expiration
  {
    var data := c.data;
    var todo := c.data.Keys;
    while todo != {}
      invariant todo <= data.Keys <= c.data.Keys
      invariant forall k :: k in data ==> data[k] == c.data[k]
      invariant forall k :: k in c.data && k !in todo ==> (k in data <==> !SweepDeletes(c.data[k], now))
      decreases todo
    {
      var key :| key in todo;
      var entry := data[key];
      if now > entry.expiration && entry.expiry {
        data := data - {key};
      }
      todo := todo - {key};
    }
    c' := Cache(data);
    assert c'.data.Keys == Sweep(c, now).data.Keys;
  }

  /** A fresh engine reads as a miss for every key at every instant. */
  lemma InitReadsNothing(key: Key, now: Nanos)
    ensures Get(Init(), key, now) == Miss
  {
  }

  /** A second write to the same key erases every trace of the first one. */
  lemma SetOverwrites(c: Cache, key: Key, v1: Value, v2: Value, t1: Nanos, t2: Nanos)
    ensures Set(Set(c, key, v1, t1), key, v2, t2) == Set(c, key, v2, t2)
  {
  }

  /** The same for writes with a time-to-live: the later write wins outright. */
  lemma SetTOverwrites(c: Cache, key: Key, v1: Value, v2: Value, d1: Nanos, d2: Nanos, t1: Nanos, t2: Nanos)
    ensures SetT(SetT(c, key, v1, d1, t1), key, v2, d2, t2) == SetT(c, key, v2, d2, t2)
    ensures SetT(Set(c, key, v1, t1), key, v2, d2, t2) == SetT(c, key, v2, d2, t2)
    ensures Set(SetT(c, key, v1, d1, t1), key, v2, t2) == Set(c, key, v2, t2)
  {
  }

  /** Writes never change what a reader sees under any other key. */
  lemma WritesFrameOtherKeys(c: Cache, key: Key, other: Key, v: Value, d: Nanos, now: Nanos, t: Nanos)
    requires other != key
    ensures Get(Set(c, key, v, now), other, t) == Get(c, other, t)
    ensures Get(SetT(c, key, v, d, now), other, t) == Get(c, other, t)
  {
  }

  /** A negative time-to-live hides the entry from every read at or after the
      write instant; a zero one leaves it visible at exactly that instant. */
  lemma NonPositiveTtl(c: Cache, key: Key, v: Value, d: Nanos, now: Nanos, t: Nanos)
    requires now <= t
    ensures d < 0 ==> Get(SetT(c, key, v, d, now), key, t) == Miss
    ensures d == 0 ==> (Get(SetT(c, key, v, d, now), key, t).found <==> t == now)
  {
  }

  /** Sweeping twice at the same instant deletes nothing more. */
  lemma SweepIdempotent(c: Cache, now: Nanos)
    ensures Sweep(Sweep(c, now), now) == Sweep(c, now)
  {
    assert Sweep(Sweep(c, now), now).data == Sweep(c, now).data;
  }

  /** Two passes amount to one pass at the later of their instants. */
  lemma SweepCompose(c: Cache, t1: Nanos, t2: Nanos)
    ensures Sweep(Sweep(c, t1), t2) == Sweep(c, if t1 <= t2 then t2 else t1)
  {
    var later := if t1 <= t2 then t2 else t1;
    assert Sweep(Sweep(c, t1), t2).data.Keys == Sweep(c, later).data.Keys;
  }

  /** The sweep is invisible to readers at the instant of the pass or later:
      the read test and the deletion test use the same comparison, so a pass
      only deletes entries every such read already hides. */
  lemma SweepUnobservable(c: Cache, swept: Nanos, key: Key, now: Nanos)
    requires swept <= now
    ensures Get(Sweep(c, swept), key, now) == Get(c, key, now)
  {
  }

  /** A pass dated after the read can hide an entry the read would have seen:
      the condition `swept <= now` above cannot be dropped. */
  lemma SweepAheadOfReader()
    ensures var c := SetT(Init(), "k", "v", 5, 0);
            Get(c, "k", 3) == Lookup("v", true) && Get(Sweep(c, 10), "k", 3) == Miss
  {
  }
}
