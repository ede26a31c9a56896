/**
 When the function caches answer as they should: exact conditions for one state and for whole
 runs, and a run that does not meet them.
 */
module ArgsCacheRuns {
  import opened Prelude
  import opened ExpiringCache
  import opened ArgsCache

  /** From now on every call is answered as by the simple cache. */
  ghost predicate IsIdeal<K(!new), V(!new)>(ttl: real, s: State<K, V>) {
    forall key, now :: now >= s.clock ==> Hit(s, key, now) == Ideal(ttl, s, key, now)
  }

  lemma FoundIsLatest<K(!new), V>(ttl: real, s: State<K, V>, key: K, now: real)
    requires Inv(ttl, s) && Hit(s, key, now).Some?
    ensures key in s.latest && Hit(s, key, now) == Some(s.latest[key].0)
    ensures Lookup(Evict(s.cache, now), key).value == Entry(key, s.latest[key].1 + ttl, s.latest[key].0)
  {
    LookupEvict(s.cache, now, key);
    EvictKeeps(s.cache, now);
    assert Has(s.cache, key);
  }

  lemma IdealWhenTimely<K(!new), V>(ttl: real, s: State<K, V>, key: K, now: real)
    requires Inv(ttl, s) && now >= s.clock
    requires Has(Evict(s.cache, now), key) ==> now <= Lookup(Evict(s.cache, now), key).value.expires
    ensures Hit(s, key, now) == Ideal(ttl, s, key, now)
  {
    if Hit(s, key, now).Some? {
      FoundIsLatest(ttl, s, key, now);
    } else {
      LookupEvict(s.cache, now, key);
    }
  }

  lemma OrderedIsIdeal<K(!new), V>(ttl: real, s: State<K, V>, key: K, now: real)
    requires Inv(ttl, s) && OrderedFrom(s.cache, s.clock) && now >= s.clock
    ensures Hit(s, key, now) == Ideal(ttl, s, key, now)
  {
    OrderedIffTimely(s.cache, s.clock);
    FoundTimelyIff(s.cache, s.clock, Expiry());
    if Has(Evict(s.cache, now), key) {
      assert now <= Expiry()(Lookup(Evict(s.cache, now), key).value);
    }
    IdealWhenTimely(ttl, s, key, now);
  }

  lemma IdealIffOrdered<K(!new), V(!new)>(ttl: real, s: State<K, V>)
    requires Inv(ttl, s)
    ensures IsIdeal(ttl, s) <==> OrderedFrom(s.cache, s.clock)
  {
    if OrderedFrom(s.cache, s.clock) {
      forall key, now | now >= s.clock ensures Hit(s, key, now) == Ideal(ttl, s, key, now) {
        OrderedIsIdeal(ttl, s, key, now);
      }
    }
    if IsIdeal(ttl, s) {
      forall k, now | now >= s.clock && Has(Evict(s.cache, now), k)
        ensures now <= Expiry()(Lookup(Evict(s.cache, now), k).value)
      {
        assert Hit(s, k, now) == Ideal(ttl, s, k, now);
        FoundIsLatest(ttl, s, k, now);
      }
      FoundTimelyIff(s.cache, s.clock, Expiry());
      OrderedIffTimely(s.cache, s.clock);
    }
  }

  /**
   After any run, overlapping or not: from then on every call is answered as by the simple
   cache if and only if behind an entry that is still good nothing expires earlier.
   */
  lemma CacheIsIdealIff<K(!new), V(!new)>(ttl: real, s: State<K, V>)
    requires Reachable(ttl, s)
    ensures IsIdeal(ttl, s) <==> OrderedFrom(s.cache, s.clock)
  {
    ReachableInv(ttl, s);
    IdealIffOrdered(ttl, s);
  }

  // Deadlines over whole runs.

  /**
   A result is stored so that it expires when it is due, and where its key is cached, when
   everything behind it is due.
   */
  ghost predicate InTime<K, V>(ttl: real, due: Entry<K, V> -> real, s: State<K, V>, e: Event<K, V>) {
    e.Store? && ttl >= 0.0 ==>
      && e.at + ttl <= due(Entry(e.key, e.at + ttl, e.data))
      && forall i, j :: 0 <= i < j < |s.cache| && s.cache[i].key == e.key ==> e.at + ttl <= due(s.cache[j])
  }

  lemma StoreTimelyIff<K(!new), V>(ttl: real, due: Entry<K, V> -> real, c: Cache<K, V>, clock: real,
                                   key: K, data: V, at: real)
    requires CacheOk(ttl, c, clock) && Timely(c, clock, due) && at >= clock
    ensures Timely(Assign(c, key, at + ttl, data), at, due)
       <==> (ttl >= 0.0 ==>
              && at + ttl <= due(Entry(key, at + ttl, data))
              && forall i, j :: 0 <= i < j < |c| && c[i].key == key ==> at + ttl <= due(c[j]))
  {
    if ttl >= 0.0 {
      TimelyAssignIff(c, key, at + ttl, data, clock, at, due);
    } else {
      AssignBounded(c, key, at + ttl, data);
      ExpiredIsTimely(Assign(c, key, at + ttl, data), at, due);
    }
  }

  lemma NextTimelyIff<K(!new), V>(ttl: real, due: Entry<K, V> -> real, s: State<K, V>, e: Event<K, V>)
    requires Inv(ttl, s) && Timely(s.cache, s.clock, due) && Enabled(s, e)
    ensures var t := Next(ttl, s, e); Timely(t.cache, t.clock, due) <==> InTime(ttl, due, s, e)
  {
    match e
    case Enter(_, now) => TimelyEvict(s.cache, s.clock, now, due);
    case Store(key, data, at) => StoreTimelyIff(ttl, due, s.cache, s.clock, key, data, at);
    case Raise(_) =>
  }

  /** Every store of the run is in time. */
  ghost predicate AllInTime<K, V>(ttl: real, due: Entry<K, V> -> real, s: State<K, V>, events: seq<Event<K, V>>)
    decreases |events|
  {
    events != [] ==> InTime(ttl, due, s, events[0]) && AllInTime(ttl, due, Next(ttl, s, events[0]), events[1..])
  }

  /** In no state of the run could a call follow that finds a value later than it is due. */
  ghost predicate TimelyThroughout<K(!new), V>(ttl: real, due: Entry<K, V> -> real, s: State<K, V>,
                                               events: seq<Event<K, V>>)
    decreases |events|
  {
    && FoundTimely(s.cache, s.clock, due)
    && (events != [] ==> TimelyThroughout(ttl, due, Next(ttl, s, events[0]), events[1..]))
  }

  lemma {:induction false} TimelyThroughoutIff<K(!new), V>(ttl: real, due: Entry<K, V> -> real, s: State<K, V>,
                                                           events: seq<Event<K, V>>)
    requires Inv(ttl, s) && Timely(s.cache, s.clock, due) && Run(ttl, s, events).Some?
    ensures TimelyThroughout(ttl, due, s, events) <==> AllInTime(ttl, due, s, events)
    decreases |events|
  {
    FoundTimelyIff(s.cache, s.clock, due);
    if events == [] {
    } else {
      var t := Next(ttl, s, events[0]);
      NextInv(ttl, s, events[0]);
      NextTimelyIff(ttl, due, s, events[0]);
      if InTime(ttl, due, s, events[0]) {
        TimelyThroughoutIff(ttl, due, t, events[1..]);
      } else {
        FoundTimelyIff(t.cache, t.clock, due);
      }
    }
  }

  /**
   For any deadline: no call that could follow any state of a run finds a value later than it
   is due if and only if every result is stored in time for itself and for what stands behind
   its key.
   */
  lemma RunIsTimelyIff<K(!new), V>(ttl: real, due: Entry<K, V> -> real, events: seq<Event<K, V>>)
    requires Run(ttl, Init(), events).Some?
    ensures TimelyThroughout(ttl, due, Init(), events) <==> AllInTime(ttl, due, Init(), events)
  {
    TimelyThroughoutIff(ttl, due, Init(), events);
  }

  /** In every state of the run any call that could follow is answered as by the simple cache. */
  ghost predicate IdealThroughout<K(!new), V(!new)>(ttl: real, s: State<K, V>, events: seq<Event<K, V>>)
    decreases |events|
  {
    IsIdeal(ttl, s) && (events != [] ==> IdealThroughout(ttl, Next(ttl, s, events[0]), events[1..]))
  }

  lemma {:induction false} IdealIsTimely<K(!new), V(!new)>(ttl: real, s: State<K, V>, events: seq<Event<K, V>>)
    requires Inv(ttl, s) && Run(ttl, s, events).Some?
    ensures IdealThroughout(ttl, s, events) <==> TimelyThroughout(ttl, Expiry(), s, events)
    decreases |events|
  {
    IdealIffOrdered(ttl, s);
    OrderedIffTimely(s.cache, s.clock);
    FoundTimelyIff(s.cache, s.clock, Expiry());
    if events == [] {
    } else {
      NextInv(ttl, s, events[0]);
      IdealIsTimely(ttl, Next(ttl, s, events[0]), events[1..]);
    }
  }

  /** When a result is stored, its key is not cached or nothing behind it expires earlier. */
  ghost predicate InPlace<K, V>(ttl: real, s: State<K, V>, e: Event<K, V>) {
    e.Store? && ttl >= 0.0 ==>
      forall i, j :: 0 <= i < j < |s.cache| && s.cache[i].key == e.key ==> s.cache[j].expires >= e.at + ttl
  }

  ghost predicate AllInPlace<K, V>(ttl: real, s: State<K, V>, events: seq<Event<K, V>>)
    decreases |events|
  {
    events != [] ==> InPlace(ttl, s, events[0]) && AllInPlace(ttl, Next(ttl, s, events[0]), events[1..])
  }

  lemma {:induction false} InPlaceIsInTime<K, V>(ttl: real, s: State<K, V>, events: seq<Event<K, V>>)
    ensures AllInPlace(ttl, s, events) <==> AllInTime(ttl, Expiry(), s, events)
    decreases |events|
  {
    if events == [] {
    } else {
      assert forall c: Entry<K, V> :: Expiry()(c) == c.expires;
      InPlaceIsInTime(ttl, Next(ttl, s, events[0]), events[1..]);
    }
  }

  /**
   A run is answered throughout as by the simple cache if and only if whenever a result is
   stored, its key is not cached or nothing behind it expires earlier.
   */
  lemma RunIsIdealIff<K(!new), V(!new)>(ttl: real, events: seq<Event<K, V>>)
    requires Run(ttl, Init(), events).Some?
    ensures IdealThroughout(ttl, Init(), events) <==> AllInPlace(ttl, Init(), events)
  {
    IdealIsTimely(ttl, Init(), events);
    TimelyThroughoutIff(ttl, Expiry(), Init(), events);
    InPlaceIsInTime(ttl, Init(), events);
  }

  // Runs without overlapping calls for one key meet the condition.

  /** No call for a key starts while another for that key is in progress. */
  predicate Separate<K(==), V>(s: State<K, V>, e: Event<K, V>) {
    e.Enter? ==> e.key !in s.running
  }

  predicate AllSeparate<K(==), V>(ttl: real, s: State<K, V>, events: seq<Event<K, V>>)
    decreases |events|
  {
    events != [] ==> Separate(s, events[0]) && AllSeparate(ttl, Next(ttl, s, events[0]), events[1..])
  }

  /** Holds too in runs without overlap. */
  ghost predicate InOrder<K(!new), V>(s: State<K, V>) {
    && Sorted(s.cache)
    && (forall k :: s.running[k] <= 1)
    && (forall k :: k in s.running ==> !Has(s.cache, k))
  }

  lemma EnterInOrder<K(!new), V>(ttl: real, s: State<K, V>, key: K, now: real)
    requires Inv(ttl, s) && InOrder(s) && key !in s.running
    ensures InOrder(Next(ttl, s, Enter(key, now)))
  {
    var t := Next(ttl, s, Enter(key, now));
    EvictKeeps(s.cache, now);
    forall k | k in t.running ensures !Has(t.cache, k) {
      LookupEvict(s.cache, now, k);
    }
  }

  lemma AppendSorted<K, V>(c: Cache<K, V>, key: K, expires: real, v: V)
    requires Sorted(c) && !Has(c, key) && forall e :: e in c ==> e.expires <= expires
    ensures Sorted(Assign(c, key, expires, v))
  {
    AssignAbsent(c, key, expires, v);
    assert forall i :: 0 <= i < |c| ==> c[i] in c;
  }

  lemma StoreInOrder<K(!new), V>(ttl: real, s: State<K, V>, key: K, data: V, at: real)
    requires Inv(ttl, s) && InOrder(s) && key in s.running && at >= s.clock
    ensures InOrder(Next(ttl, s, Store(key, data, at)))
  {
    var t := Next(ttl, s, Store(key, data, at));
    AppendSorted(s.cache, key, at + ttl, data);
    forall k | k in t.running ensures !Has(t.cache, k) {
      assert k != key && k in s.running;
      LookupAssign(s.cache, key, at + ttl, data, k);
    }
  }

  lemma NextInOrder<K(!new), V>(ttl: real, s: State<K, V>, e: Event<K, V>)
    requires Inv(ttl, s) && InOrder(s) && Enabled(s, e) && Separate(s, e)
    ensures InOrder(Next(ttl, s, e))
  {
    match e
    case Enter(key, now) => EnterInOrder(ttl, s, key, now);
    case Store(key, data, at) => StoreInOrder(ttl, s, key, data, at);
    case Raise(_) =>
  }

  lemma {:induction false} RunKeepsInOrder<K(!new), V>(ttl: real, s: State<K, V>, events: seq<Event<K, V>>)
    requires Inv(ttl, s) && InOrder(s) && Run(ttl, s, events).Some? && AllSeparate(ttl, s, events)
    ensures Inv(ttl, Run(ttl, s, events).value) && InOrder(Run(ttl, s, events).value)
    decreases |events|
  {
    if events == [] {
    } else {
      NextInv(ttl, s, events[0]);
      NextInOrder(ttl, s, events[0]);
      RunKeepsInOrder(ttl, Next(ttl, s, events[0]), events[1..]);
    }
  }

  lemma {:induction false} SeparateIsInPlace<K(!new), V>(ttl: real, s: State<K, V>, events: seq<Event<K, V>>)
    requires Inv(ttl, s) && InOrder(s) && Run(ttl, s, events).Some? && AllSeparate(ttl, s, events)
    ensures AllInPlace(ttl, s, events)
    decreases |events|
  {
    if events == [] {
    } else {
      var e := events[0];
      NextInv(ttl, s, e);
      NextInOrder(ttl, s, e);
      if e.Store? {
        assert !Has(s.cache, e.key);
        assert forall i :: 0 <= i < |s.cache| ==> s.cache[i] in s.cache;
      }
      SeparateIsInPlace(ttl, Next(ttl, s, e), events[1..]);
    }
  }

  /**
   In a run in which calls for one key do not overlap, nested calls for other keys included,
   a call returns a cached value exactly when the last value computed for its key was stored
   no longer than TTL ago, and it returns that value.
   */
  lemma SeparateRunsAreIdeal<K(!new), V(!new)>(ttl: real, events: seq<Event<K, V>>)
    requires Run(ttl, Init(), events).Some? && AllSeparate(ttl, Init(), events)
    ensures IdealThroughout(ttl, Init(), events)
  {
    SeparateIsInPlace(ttl, Init(), events);
    RunIsIdealIff(ttl, events);
  }

  lemma {:induction false} RunAppend<K, V>(ttl: real, s: State<K, V>, front: seq<Event<K, V>>, e: Event<K, V>)
    requires Run(ttl, s, front).Some? && Enabled(Run(ttl, s, front).value, e)
    ensures Run(ttl, s, front + [e]) == Some(Next(ttl, Run(ttl, s, front).value, e))
    decreases |front|
  {
    if front == [] {
      assert ([] + [e])[1..] == [];
    } else {
      assert (front + [e])[1..] == front[1..] + [e];
      RunAppend(ttl, Next(ttl, s, front[0]), front[1..], e);
    }
  }

  lemma ReachNext<K(!new), V(!new)>(ttl: real, s: State<K, V>, e: Event<K, V>) returns (t: State<K, V>)
    requires Reachable(ttl, s) && Enabled(s, e)
    ensures t == Next(ttl, s, e) && Reachable(ttl, t)
  {
    t := Next(ttl, s, e);
    var events :| Run(ttl, Init(), events) == Some(s);
    RunAppend(ttl, Init(), events, e);
  }

  // The states of a run in which two calls for key 1 overlap and key 2 is stored in between.

  function Overlap(v: int, step: nat): State<int, int>
    requires step <= 6
  {
    match step
    case 0 => Init()
    case 1 => State([], multiset{1}, 0.0, map[])
    case 2 => State([], multiset{1, 1}, 0.0, map[])
    case 3 => State([Entry(1, 6.0, v)], multiset{1}, 1.0, map[1 := (v, 1.0)])
    case 4 => State([Entry(1, 6.0, v)], multiset{1, 2}, 1.0, map[1 := (v, 1.0)])
    case 5 => State([Entry(1, 6.0, v), Entry(2, 7.0, v)], multiset{1}, 2.0, map[1 := (v, 1.0), 2 := (v, 2.0)])
    case _ => State([Entry(1, 14.0, v), Entry(2, 7.0, v)], multiset{}, 9.0, map[1 := (v, 9.0), 2 := (v, 2.0)])
  }

  function OverlapEvent(v: int, step: nat): Event<int, int>
    requires step < 6
  {
    match step
    case 0 => Enter(1, 0.0)
    case 1 => Enter(1, 0.0)
    case 2 => Store(1, v, 1.0)
    case 3 => Enter(2, 1.0)
    case 4 => Store(2, v, 2.0)
    case _ => Store(1, v, 9.0)
  }

  lemma OverlapEnters(v: int, step: nat)
    requires step < 2
    ensures Enabled(Overlap(v, step), OverlapEvent(v, step))
    ensures Next(5.0, Overlap(v, step), OverlapEvent(v, step)) == Overlap(v, step + 1)
  {
  }

  lemma OverlapStoresFirst(v: int)
    ensures Enabled(Overlap(v, 2), OverlapEvent(v, 2))
    ensures Next(5.0, Overlap(v, 2), OverlapEvent(v, 2)) == Overlap(v, 3)
  {
  }

  lemma OverlapEntersOther(v: int)
    ensures Enabled(Overlap(v, 3), OverlapEvent(v, 3))
    ensures Next(5.0, Overlap(v, 3), OverlapEvent(v, 3)) == Overlap(v, 4)
  {
  }

  lemma OverlapStoresOther(v: int)
    ensures Enabled(Overlap(v, 4), OverlapEvent(v, 4))
    ensures Next(5.0, Overlap(v, 4), OverlapEvent(v, 4)) == Overlap(v, 5)
  {
    AssignAbsent(Overlap(v, 4).cache, 2, 7.0, v);
  }

  lemma OverlapStoresAgain(v: int)
    ensures Enabled(Overlap(v, 5), OverlapEvent(v, 5))
    ensures Next(5.0, Overlap(v, 5), OverlapEvent(v, 5)) == Overlap(v, 6)
  {
  }

  lemma {:induction false} OverlapReachable(v: int, step: nat)
    requires step <= 6
    ensures Reachable(5.0, Overlap(v, step))
  {
    if step == 0 {
      assert Run(5.0, Init<int, int>(), []) == Some(Overlap(v, 0));
    } else {
      OverlapReachable(v, step - 1);
      if step <= 2 { OverlapEnters(v, step - 1); }
      else if step == 3 { OverlapStoresFirst(v); }
      else if step == 4 { OverlapEntersOther(v); }
      else if step == 5 { OverlapStoresOther(v); }
      else { OverlapStoresAgain(v); }
      var s := ReachNext(5.0, Overlap(v, step - 1), OverlapEvent(v, step - 1));
    }
  }

  /**
   With two overlapping calls for one key a call can return a value that is too old: the
   second store renews the first entry in place, and what was stored in between hides behind it.
   */
  lemma OverlapReturnsStale(v: int)
    ensures var s := Overlap(v, 6);
      && Reachable(5.0, s) && s.clock == 9.0
      && Hit(s, 2, 10.0) == Some(v) && Ideal(5.0, s, 2, 10.0) == None
  {
    OverlapReachable(v, 6);
    var c := Overlap(v, 6).cache;
    assert Evict(c, 10.0) == c;
    assert c[1..] == [Entry(2, 7.0, v)];
    assert Lookup(c[1..], 2) == Some(Entry(2, 7.0, v));
  }
}
