/**
 The expiring key-value store: every key maps to a value and an absolute
 deadline. Readers check the deadline lazily on every read; a periodic sweep
 physically deletes entries whose deadline has passed.
 */
module TtlMap {
  import opened Wrappers
  import opened Clock

  /** A stored value together with the instant it expires at. */
  datatype Entry<V> = Entry(expiresAt: Instant, value: V)

  /** The store's contents; the concurrent map becomes a plain value. */
  type Table<V> = map<string, Entry<V>>

  /** Inserts or overwrites the entry for `key`. */
  function Store<V>(m: Table<V>, key: string, ts: Instant, val: V): (r: Table<V>)
    ensures r.Keys == m.Keys + {key}
    ensures r[key].expiresAt == ts && r[key].value == val
    ensures forall k :: k in m && k != key ==> r[k] == m[k]
  {
    m[key := Entry(ts, val)]
  }

  /**
   The value for `key` at instant `now`; absent when there is no entry or its
   deadline is strictly before `now`. An entry is still returned at the very
   instant of its deadline.
   */
  function Load<V>(m: Table<V>, key: string, now: Instant): (r: Option<V>)
    ensures r.None? <==> key !in m || m[key].expiresAt < now
    ensures r.Some? ==> r.value == m[key].value
  {
    if key !in m then None
    else if Before(m[key].expiresAt, now) then None
    else Some(m[key].value)
  }

  /** One tick of the background sweeper at tick time `now`. */
  function Sweep<V>(m: Table<V>, now: Instant): (r: Table<V>)
    ensures forall k :: k in r <==> k in m && now <= m[k].expiresAt
    ensures forall k :: k in r ==> r[k] == m[k]
  {
    map k | k in m && !After(now, m[k].expiresAt) :: m[k]
  }

  /**
   The sweep as the source performs it: visit every entry once and delete
   the ones whose deadline `now` is after.
   */
  method SweepRange<V>(m: Table<V>, now: Instant) returns (r: Table<V>)
    ensures r == Sweep(m, now)
  {
    r := m;
    var pending := m.Keys;
    while pending != {}
      invariant pending <= m.Keys
      invariant forall k :: k in r <==> k in m && (k in pending || !After(now, m[k].expiresAt))
      invariant forall k :: k in r ==> r[k] == m[k]
      decreases pending
    {
      var k :| k in pending;
      if After(now, m[k].expiresAt) {
        r := r - {k};
      }
      pending := pending - {k};
    }
  }

  /** A stored value is readable at every instant up to and including its deadline. */
  lemma StoreThenLoad<V>(m: Table<V>, key: string, ts: Instant, val: V, now: Instant)
    ensures Load(Store(m, key, ts, val), key, now) == (if now <= ts then Some(val) else None)
  {
  }

  /** Storing one key leaves the reads of every other key as they were. */
  lemma StoreLeavesOthers<V>(m: Table<V>, key: string, ts: Instant, val: V, other: string, now: Instant)
    requires other != key
    ensures Load(Store(m, key, ts, val), other, now) == Load(m, other, now)
  {
  }

  /** The later of two stores to the same key wins. */
  lemma StoreLastWins<V>(m: Table<V>, key: string, ts1: Instant, v1: V, ts2: Instant, v2: V)
    ensures Store(Store(m, key, ts1, v1), key, ts2, v2) == Store(m, key, ts2, v2)
  {
  }

  /** Sweeping twice at the same tick removes nothing more. */
  lemma SweepIdempotent<V>(m: Table<V>, now: Instant)
    ensures Sweep(Sweep(m, now), now) == Sweep(m, now)
  {
  }

  /**
   The sweep is invisible to readers: every read at the tick time or later
   answers the same with or without the sweep, because the sweep deletes
   only what the lazy check already hides.
   */
  lemma SweepInvisible<V>(m: Table<V>, sweptAt: Instant, key: string, now: Instant)
    requires sweptAt <= now
    ensures Load(Sweep(m, sweptAt), key, now) == Load(m, key, now)
  {
  }

  /** Any entry that survives the sweep is still readable at the tick time. */
  lemma SweepKeepsOnlyLive<V>(m: Table<V>, now: Instant, key: string)
    ensures key in Sweep(m, now) <==> Load(m, key, now).Some?
  {
  }
}
