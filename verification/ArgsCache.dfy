/**
 The function caches over whole runs. A wrapped call first evicts and looks its key up; on a
 miss it runs the function, which may itself make wrapped calls, and stores the result.
 */
module ArgsCache {
  import opened Prelude
  import opened ExpiringCache

  /** A wrapper between the eviction at its start and its return, for one key. */
  datatype State<!K, V> = State(
    cache: Cache<K, V>,
    running: multiset<K>,              // keys whose function is being run
    clock: real,                       // the latest clock reading
    latest: map<K, (V, real)>)         // history: the last value computed, and when it was stored

  datatype Event<K, V> =
    | Enter(key: K, now: real)               // eviction and look-up
    | Store(key: K, data: V, at: real)       // the function returned, the result is stored
    | Raise(key: K)                          // the function raised

  function Init<K, V>(): State<K, V> {
    State([], multiset{}, 0.0, map[])
  }

  /** What a call that enters at `now` finds in the cache. */
  function Hit<K(==), V>(s: State<K, V>, key: K, now: real): Option<V> {
    var e := Lookup(Evict(s.cache, now), key);
    if e.Some? then Some(e.value.value) else None
  }

  predicate Enabled<K(==), V>(s: State<K, V>, e: Event<K, V>) {
    match e
    case Enter(_, now) => now >= s.clock
    case Store(key, _, at) => key in s.running && at >= s.clock
    case Raise(key) => key in s.running
  }

  function Next<K(==), V>(ttl: real, s: State<K, V>, e: Event<K, V>): State<K, V> {
    match e
    case Enter(key, now) =>
      State(Evict(s.cache, now),
            if Hit(s, key, now).Some? then s.running else s.running + multiset{key},
            now, s.latest)
    case Store(key, data, at) =>
      State(Assign(s.cache, key, at + ttl, data), s.running - multiset{key}, at, s.latest[key := (data, at)])
    case Raise(key) => s.(running := s.running - multiset{key})
  }

  function Run<K(==), V>(ttl: real, s: State<K, V>, events: seq<Event<K, V>>): Option<State<K, V>>
    decreases |events|
  {
    if events == [] then Some(s)
    else if Enabled(s, events[0]) then Run(ttl, Next(ttl, s, events[0]), events[1..])
    else None
  }

  ghost predicate Reachable<K(!new), V(!new)>(ttl: real, s: State<K, V>) {
    exists events :: Run(ttl, Init(), events) == Some(s)
  }

  /** The simple cache: the last value computed for a key, as long as it is young enough. */
  function Ideal<K(==), V>(ttl: real, s: State<K, V>, key: K, now: real): Option<V> {
    if key in s.latest && now <= s.latest[key].1 + ttl then Some(s.latest[key].0) else None
  }

  ghost predicate CacheOk<K(!new), V>(ttl: real, c: Cache<K, V>, clock: real) {
    Unique(c) && forall e :: e in c ==> e.expires <= clock + ttl
  }

  /** What is cached is the latest value, and all that is young is cached. */
  ghost predicate LatestOk<K(!new), V>(ttl: real, c: Cache<K, V>, latest: map<K, (V, real)>, clock: real) {
    && (forall k :: Has(c, k) ==> k in latest && Lookup(c, k) == Some(Entry(k, latest[k].1 + ttl, latest[k].0)))
    && (forall k :: k in latest ==> latest[k].1 <= clock && (latest[k].1 + ttl >= clock ==> Has(c, k)))
  }

  /** Holds in every run. */
  ghost predicate Inv<K(!new), V>(ttl: real, s: State<K, V>) {
    CacheOk(ttl, s.cache, s.clock) && LatestOk(ttl, s.cache, s.latest, s.clock)
  }

  lemma LookupEvict<K(!new), V>(c: Cache<K, V>, now: real, k: K)
    requires Unique(c)
    ensures Has(Evict(c, now), k) ==> Lookup(Evict(c, now), k) == Lookup(c, k)
    ensures Has(c, k) && Lookup(c, k).value.expires >= now ==> Has(Evict(c, now), k)
  {
    EvictKeeps(c, now);
    if Has(Evict(c, now), k) {
      var e := Lookup(Evict(c, now), k).value;
      var i :| 0 <= i < |c| && c[i] == e;
      LookupInUnique(c, i);
    }
  }

  lemma EnterInv<K(!new), V>(ttl: real, s: State<K, V>, key: K, now: real)
    requires Inv(ttl, s) && now >= s.clock
    ensures Inv(ttl, Next(ttl, s, Enter(key, now)))
  {
    EvictKeeps(s.cache, now);
    forall k ensures Has(Evict(s.cache, now), k) ==> Lookup(Evict(s.cache, now), k) == Lookup(s.cache, k)
             ensures Has(s.cache, k) && Lookup(s.cache, k).value.expires >= now ==> Has(Evict(s.cache, now), k)
    {
      LookupEvict(s.cache, now, k);
    }
    assert CacheOk(ttl, Evict(s.cache, now), now);
    assert LatestOk(ttl, Evict(s.cache, now), s.latest, now);
  }

  lemma StoreCacheOk<K(!new), V>(ttl: real, c: Cache<K, V>, clock: real, key: K, data: V, at: real)
    requires CacheOk(ttl, c, clock) && at >= clock
    ensures CacheOk(ttl, Assign(c, key, at + ttl, data), at)
  {
    AssignUnique(c, key, at + ttl, data);
    AssignBounded(c, key, at + ttl, data);
  }

  lemma AssignBounded<K, V>(c: Cache<K, V>, key: K, expires: real, v: V)
    requires forall e :: e in c ==> e.expires <= expires
    ensures forall e :: e in Assign(c, key, expires, v) ==> e.expires <= expires
  {
    if Has(c, key) {
      var p := AssignPresent(c, key, expires, v);
    } else {
      AssignAbsent(c, key, expires, v);
    }
  }

  lemma StoreLatestOk<K(!new), V>(ttl: real, c: Cache<K, V>, latest: map<K, (V, real)>, clock: real,
                                  key: K, data: V, at: real)
    requires LatestOk(ttl, c, latest, clock) && at >= clock
    ensures LatestOk(ttl, Assign(c, key, at + ttl, data), latest[key := (data, at)], at)
  {
    var d, after := Assign(c, key, at + ttl, data), latest[key := (data, at)];
    forall k ensures Lookup(d, k) == if k == key then Some(Entry(key, at + ttl, data)) else Lookup(c, k) {
      LookupAssign(c, key, at + ttl, data, k);
    }
    forall k | k in after ensures after[k].1 <= at && (after[k].1 + ttl >= at ==> Has(d, k)) {
      assert k == key || (k in latest && after[k] == latest[k]);
    }
    forall k | Has(d, k) ensures k in after && Lookup(d, k) == Some(Entry(k, after[k].1 + ttl, after[k].0)) {
      assert k == key || Has(c, k);
    }
  }

  lemma StoreInv<K(!new), V>(ttl: real, s: State<K, V>, key: K, data: V, at: real)
    requires Inv(ttl, s) && at >= s.clock
    ensures Inv(ttl, Next(ttl, s, Store(key, data, at)))
  {
    StoreCacheOk(ttl, s.cache, s.clock, key, data, at);
    StoreLatestOk(ttl, s.cache, s.latest, s.clock, key, data, at);
  }

  lemma NextInv<K(!new), V>(ttl: real, s: State<K, V>, e: Event<K, V>)
    requires Inv(ttl, s) && Enabled(s, e)
    ensures Inv(ttl, Next(ttl, s, e))
  {
    match e
    case Enter(key, now) => EnterInv(ttl, s, key, now);
    case Store(key, data, at) => StoreInv(ttl, s, key, data, at);
    case Raise(_) =>
  }

  lemma {:induction false} RunKeepsInv<K(!new), V>(ttl: real, s: State<K, V>, events: seq<Event<K, V>>)
    requires Inv(ttl, s)
    ensures Run(ttl, s, events).Some? ==> Inv(ttl, Run(ttl, s, events).value)
    decreases |events|
  {
    if events == [] {
    } else if Enabled(s, events[0]) {
      NextInv(ttl, s, events[0]);
      RunKeepsInv(ttl, Next(ttl, s, events[0]), events[1..]);
    }
  }

  lemma ReachableInv<K(!new), V(!new)>(ttl: real, s: State<K, V>)
    requires Reachable(ttl, s)
    ensures Inv(ttl, s)
  {
    var events :| Run(ttl, Init(), events) == Some(s);
    RunKeepsInv(ttl, Init(), events);
  }

  /** In every run a value that is young enough is found. */
  lemma YoungIsFound<K(!new), V(!new)>(ttl: real, s: State<K, V>, key: K, now: real)
    requires Reachable(ttl, s) && now >= s.clock && Ideal(ttl, s, key, now).Some?
    ensures Hit(s, key, now) == Ideal(ttl, s, key, now)
  {
    ReachableInv(ttl, s);
    LookupEvict(s.cache, now, key);
  }
}
