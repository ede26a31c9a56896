/** The wrapper of the function caches as an object. */
module CacheWrapper {
  import opened Prelude
  import opened ExpiringCache
  import opened ArgsCache
  import opened ArgsCacheRuns

  /** A run in which calls for one key do not overlap leads here. */
  ghost predicate ReachedSeparately<K(!new), V(!new)>(ttl: real, s: State<K, V>) {
    exists events :: Run(ttl, Init(), events) == Some(s) && AllSeparate(ttl, Init(), events)
  }

  lemma ReachedAtFirst<K(!new), V(!new)>(ttl: real)
    ensures ReachedSeparately(ttl, Init<K, V>())
  {
    assert Run(ttl, Init<K, V>(), []) == Some(Init<K, V>()) && AllSeparate(ttl, Init<K, V>(), []);
  }

  lemma {:induction false} Extends<K, V>(ttl: real, s: State<K, V>, run: seq<Event<K, V>>, e: Event<K, V>)
    requires Run(ttl, s, run).Some? && AllSeparate(ttl, s, run)
    requires Enabled(Run(ttl, s, run).value, e) && Separate(Run(ttl, s, run).value, e)
    ensures Run(ttl, s, run + [e]) == Some(Next(ttl, Run(ttl, s, run).value, e)) && AllSeparate(ttl, s, run + [e])
    decreases |run|
  {
    if run == [] {
      assert ([] + [e])[1..] == [];
      assert AllSeparate(ttl, Next(ttl, s, e), []);
    } else {
      assert (run + [e])[1..] == run[1..] + [e];
      Extends(ttl, Next(ttl, s, run[0]), run[1..], e);
    }
  }

  lemma ReachedNext<K(!new), V(!new)>(ttl: real, s: State<K, V>, e: Event<K, V>)
    requires ReachedSeparately(ttl, s) && Enabled(s, e) && Separate(s, e)
    ensures ReachedSeparately(ttl, Next(ttl, s, e))
  {
    var run :| Run(ttl, Init(), run) == Some(s) && AllSeparate(ttl, Init(), run);
    Extends(ttl, Init(), run, e);
  }

  lemma ReachedByStore<K(!new), V(!new)>(ttl: real, s: State<K, V>, key: K, data: V, at: real, expires: real)
    requires ReachedSeparately(ttl, s) && key in s.running && at >= s.clock && expires == at + ttl
    ensures ReachedSeparately(ttl, State(Assign(s.cache, key, expires, data), s.running - multiset{key}, at,
                                         s.latest[key := (data, at)]))
  {
    ReachedNext(ttl, s, Store(key, data, at));
  }

  lemma ReachedByEntering<K(!new), V(!new)>(ttl: real, s: State<K, V>, key: K, now: real)
    requires ReachedSeparately(ttl, s) && key !in s.running && now >= s.clock
    ensures var kept := Evict(s.cache, now);
      ReachedSeparately(ttl, State(kept, if Has(kept, key) then s.running else s.running + multiset{key}, now, s.latest))
  {
    ReachedNext(ttl, s, Enter(key, now));
  }

  /** After such a run a call finds the last value for its key, while it is young enough. */
  lemma EntersIdeally<K(!new), V(!new)>(ttl: real, s: State<K, V>, key: K, now: real)
    requires ReachedSeparately(ttl, s) && now >= s.clock
    ensures Hit(s, key, now) == Ideal(ttl, s, key, now)
  {
    var run :| Run(ttl, Init(), run) == Some(s) && AllSeparate(ttl, Init(), run);
    RunKeepsInOrder(ttl, Init(), run);
    OrderedIsIdeal(ttl, s, key, now);
  }

  lemma ReachedByRaise<K(!new), V(!new)>(ttl: real, s: State<K, V>, key: K)
    requires ReachedSeparately(ttl, s) && key in s.running
    ensures ReachedSeparately(ttl, s.(running := s.running - multiset{key}))
  {
    ReachedNext(ttl, s, Raise(key));
  }

  /**
   A wrapped call: it enters at `now`; should its function be run, that makes the nested calls,
   gives the outcome or raises, and the clock is then read at `at`.
   */
  datatype Invocation<K, V> = Invocation(key: K, now: real, nested: seq<Invocation<K, V>>, outcome: Option<V>, at: real)

  /** The clock never goes back, and no call is nested in one for its own key. */
  ghost predicate Proper<K, V>(c: Invocation<K, V>, running: multiset<K>, from: real)
    decreases c
  {
    from <= c.now <= c.at && c.key !in running && AllProper(c.nested, running + multiset{c.key}, c.now, c.at)
  }

  ghost predicate AllProper<K, V>(cs: seq<Invocation<K, V>>, running: multiset<K>, from: real, to: real)
    decreases cs
  {
    if cs == [] then from <= to
    else Proper(cs[0], running, from) && AllProper(cs[1..], running, cs[0].at, to)
  }

  /**
   What a cache gives that only keeps the last value computed for each key, and what it keeps
   then. None means that the function raised.
   */
  function Simply<K, V>(ttl: real, latest: map<K, (V, real)>, c: Invocation<K, V>): (Option<V>, map<K, (V, real)>)
    decreases c
  {
    if c.key in latest && c.now <= latest[c.key].1 + ttl then (Some(latest[c.key].0), latest)
    else
      var after := AllSimply(ttl, latest, c.nested);
      (c.outcome, if c.outcome.Some? then after[c.key := (c.outcome.value, c.at)] else after)
  }

  function AllSimply<K, V>(ttl: real, latest: map<K, (V, real)>, cs: seq<Invocation<K, V>>): map<K, (V, real)>
    decreases cs
  {
    if cs == [] then latest else AllSimply(ttl, Simply(ttl, latest, cs[0]).1, cs[1..])
  }

  class Wrapper<K(==, !new), V(!new)> {
    const ttl: real
    const cache: OrderedDict<K, V>
    ghost var running: multiset<K>           // the keys whose function is being run
    ghost var clock: real                    // the last clock reading
    ghost var latest: map<K, (V, real)>      // the last value computed for a key, and when it was stored

    ghost function Now(): State<K, V>
      reads this, cache
    {
      State(cache.items, running, clock, latest)
    }

    ghost predicate Valid()
      reads this, cache
    {
      ReachedSeparately(ttl, Now())
    }

    constructor (ttl: real)
      ensures Valid() && this.ttl == ttl && fresh(cache) && Now() == Init()
    {
      this.ttl := ttl;
      cache := new OrderedDict();
      running, clock, latest := multiset{}, 0.0, map[];
      new;
      ReachedAtFirst<K, V>(ttl);
    }

    /** Evict and look up: what is found is the last value for the key, while it is young enough. */
    method BeforeCall(key: K, now: real) returns (hit: Option<V>)
      requires Valid() && clock <= now && key !in running
      modifies `running, `clock, `latest, cache
      ensures Valid() && clock == now && latest == old(latest)
      ensures hit == Ideal(ttl, old(Now()), key, now)
      ensures running == if hit.Some? then old(running) else old(running) + multiset{key}
    {
      ghost var s := Now();
      cache.ClearCache(now);
      if Has(cache.items, key) {
        hit := Some(Lookup(cache.items, key).value.value);
      } else {
        hit := None;
        running := running + multiset{key};
      }
      clock := now;
      EntersIdeally(ttl, s, key, now);
      ReachedByEntering(ttl, s, key, now);
    }

    /** The function has returned, and its result is stored. */
    method AfterCall(key: K, data: V, at: real)
      requires Valid() && clock <= at && key in running
      modifies `running, `clock, `latest, cache
      ensures Valid() && clock == at && latest == old(latest)[key := (data, at)]
      ensures running == old(running) - multiset{key}
    {
      ghost var s := Now();
      cache.Set(key, at + ttl, data);
      running, clock, latest := running - multiset{key}, at, latest[key := (data, at)];
      ReachedByStore(ttl, s, key, data, at, at + ttl);
    }

    /** The function has raised, and nothing is stored. */
    method AfterRaise(key: K)
      requires Valid() && key in running
      modifies `running
      ensures Valid() && running == old(running) - multiset{key}
    {
      ghost var s := Now();
      running := running - multiset{key};
      ReachedByRaise(ttl, s, key);
    }

    /**
     A whole call with all that is nested in it: what it returns and which values are computed
     for which keys is as with the simple cache.
     */
    method Call(c: Invocation<K, V>) returns (r: Option<V>)
      requires Valid() && Proper(c, running, clock)
      modifies `running, `clock, `latest, cache
      ensures Valid() && running == old(running) && clock <= c.at
      ensures (r, latest) == Simply(ttl, old(latest), c)
      decreases c
    {
      r := BeforeCall(c.key, c.now);
      if r.Some? {
        return;
      }
      MakeNested(c.nested, c.now, c.at);
      TakenBack(old(running), c.key);
      r := c.outcome;
      match r
      case Some(data) => AfterCall(c.key, data, c.at);
      case None => AfterRaise(c.key);
    }

    /** The wrapped calls that a function makes while it is run. */
    method MakeNested(cs: seq<Invocation<K, V>>, from: real, to: real)
      requires Valid() && clock <= from && AllProper(cs, running, from, to)
      modifies `running, `clock, `latest, cache
      ensures Valid() && running == old(running) && clock <= to
      ensures latest == AllSimply(ttl, old(latest), cs)
      decreases cs
    {
      if cs != [] {
        var ignored := Call(cs[0]);
        MakeNested(cs[1..], cs[0].at, to);
      }
    }
  }

  lemma TakenBack<T>(m: multiset<T>, x: T)
    ensures m + multiset{x} - multiset{x} == m
  {
  }
}
