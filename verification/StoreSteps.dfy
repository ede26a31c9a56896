/**
 The two-level store while other clients change the remote store at any time. The steps of
 one client are interleaved with theirs: eviction and look-up, the remote read or write, and
 the storing of what it gave after the clock has been read.
 */
module StoreSteps {
  import opened Prelude
  import opened ExpiringCache
  import KVS = KeyValueStore

  /** A locally held value, with history: when the remote store held it, when it was stored. */
  datatype Sample<+V> = Sample(data: V, heldAt: real, storedAt: real)

  /** What the client is in the middle of. */
  datatype Work<+V> =
    | Idle
    | Wanting(keys: seq<string>)                        // missed locally, about to ask
    | Storing(items: seq<(string, V)>, heldAt: real)    // answered or written, about to store

  datatype State<+V> = State(
    local: Cache<string, Sample<V>>,
    remote: map<string, V>,
    clock: real,
    work: Work<V>,
    history: seq<(real, map<string, V>)>)               // the remote store at past instants

  datatype Event<+V> =
    | Other(remote: map<string, V>, t: real)            // other clients change the remote store
    | Read(keys: seq<string>, now: real)                // get and get_many: evict and look up
    | Fetch(t: real)                                    // the remote store answers
    | Write(key: string, data: V, t: real)              // put: the remote store is written
    | Commit(t: real)                                   // the clock is read, the items are stored
    | Remove(key: string, t: real)
    | Fail                                              // the remote call raised

  function Init<V>(remote: map<string, V>): State<V> {
    State([], remote, 0.0, Idle, [(0.0, remote)])
  }

  /** The keys of a read that are not held locally. */
  function Missed<V>(c: Cache<string, Sample<V>>, keys: seq<string>): seq<string> {
    if keys == [] then []
    else (if Has(c, keys[0]) then [] else [keys[0]]) + Missed(c, keys[1..])
  }

  lemma {:induction false} MissedKeys<V>(c: Cache<string, Sample<V>>, keys: seq<string>)
    requires KVS.Distinct(keys)
    ensures KVS.Distinct(Missed(c, keys))
    ensures forall k :: k in Missed(c, keys) <==> k in keys && !Has(c, k)
  {
    if keys == [] {
    } else {
      KVS.DistinctTail(keys);
      MissedKeys(c, keys[1..]);
    }
  }

  /** The answers of the remote store, for the keys it has. */
  function Found<V>(remote: map<string, V>, keys: seq<string>): seq<(string, V)> {
    if keys == [] then []
    else (if keys[0] in remote then [(keys[0], remote[keys[0]])] else []) + Found(remote, keys[1..])
  }

  function Stored<V>(c: Cache<string, Sample<V>>, items: seq<(string, V)>, heldAt: real, t: real, ttl: real)
    : Cache<string, Sample<V>>
    decreases |items|
  {
    if items == [] then c
    else
      Stored(Assign(c, items[0].0, t + ttl, Sample(items[0].1, heldAt, t)), items[1..], heldAt, t, ttl)
  }

  ghost predicate Enabled<V>(s: State<V>, e: Event<V>) {
    match e
    case Other(_, t) => t >= s.clock
    case Read(keys, now) => now >= s.clock && s.work.Idle? && KVS.Distinct(keys)
    case Fetch(t) => t >= s.clock && s.work.Wanting?
    case Write(_, _, t) => t >= s.clock && s.work.Idle?
    case Commit(t) => t >= s.clock && s.work.Storing?
    case Remove(_, t) => t >= s.clock && s.work.Idle?
    case Fail => !s.work.Idle?
  }

  /** The remote store takes a new content at an instant, which history records. */
  function At<V>(s: State<V>, remote: map<string, V>, t: real): State<V> {
    s.(remote := remote, clock := t, history := s.history + [(t, remote)])
  }

  function Next<V>(ttl: real, s: State<V>, e: Event<V>): State<V>
    requires Enabled(s, e)
  {
    match e
    case Other(remote, t) => At(s, remote, t)
    case Read(keys, now) =>
      var kept := Evict(s.local, now);
      var missed := Missed(kept, keys);
      At(s, s.remote, now).(local := kept, work := if missed == [] then Idle else Wanting(missed))
    case Fetch(t) =>
      At(s, s.remote, t).(work := Storing(Found(s.remote, s.work.keys), t))
    case Write(key, data, t) =>
      At(s, s.remote[key := data], t).(work := Storing([(key, data)], t))
    case Commit(t) =>
      At(s, s.remote, t).(local := Stored(s.local, s.work.items, s.work.heldAt, t, ttl), work := Idle)
    case Remove(key, t) => At(s, s.remote - {key}, t).(local := Delete(s.local, key))
    case Fail => s.(work := Idle)
  }

  ghost function Run<V>(ttl: real, s: State<V>, events: seq<Event<V>>): Option<State<V>>
    decreases |events|
  {
    if events == [] then Some(s)
    else if Enabled(s, events[0]) then Run(ttl, Next(ttl, s, events[0]), events[1..])
    else None
  }

  /** A run can be made in two parts. */
  lemma {:induction false} RunThen<V>(ttl: real, s: State<V>, front: seq<Event<V>>, back: seq<Event<V>>)
    requires Run(ttl, s, front).Some?
    ensures Run(ttl, s, front + back) == Run(ttl, Run(ttl, s, front).value, back)
    decreases |front|
  {
    if front == [] {
      assert front + back == back;
    } else {
      assert (front + back)[1..] == front[1..] + back;
      RunThen(ttl, Next(ttl, s, front[0]), front[1..], back);
    }
  }

  ghost predicate Reachable<V(!new)>(ttl: real, s: State<V>) {
    exists remote, events :: Run(ttl, Init(remote), events) == Some(s)
  }

  /** The remote store held `data` for the key at the instant t. */
  ghost predicate HeldRemotely<V(!new)>(s: State<V>, key: string, data: V, t: real) {
    exists i :: 0 <= i < |s.history| && s.history[i].0 == t
                && key in s.history[i].1 && s.history[i].1[key] == data
  }

  /** What a read that enters at `now` finds locally. */
  function Hit<V>(s: State<V>, key: string, now: real): Option<Sample<V>> {
    var e := Lookup(Evict(s.local, now), key);
    if e.Some? then Some(e.value.value) else None
  }

  ghost predicate SampleOk<V(!new)>(ttl: real, s: State<V>, e: Entry<string, Sample<V>>) {
    && e.expires == e.value.storedAt + ttl
    && e.value.heldAt <= e.value.storedAt <= s.clock
    && HeldRemotely(s, e.key, e.value.data, e.value.heldAt)
  }

  ghost predicate DistinctItems<V>(items: seq<(string, V)>) {
    forall i, j :: 0 <= i < j < |items| ==> items[i].0 != items[j].0
  }

  ghost predicate NewItems<V(!new)>(c: Cache<string, Sample<V>>, items: seq<(string, V)>) {
    DistinctItems(items) && forall x :: x in items ==> !Has(c, x.0)
  }

  /** What is asked for is new to the local cache, and so is what is stored, unless it is a put. */
  ghost predicate WorkOk<V(!new)>(s: State<V>) {
    match s.work
    case Idle => true
    case Wanting(keys) => KVS.Distinct(keys) && forall k :: k in keys ==> !Has(s.local, k)
    case Storing(items, heldAt) =>
      && heldAt <= s.clock
      && (forall x :: x in items ==> HeldRemotely(s, x.0, x.1, heldAt))
      && (NewItems(s.local, items) || |items| == 1)
  }

  /** Every local value was once the remote value. */
  ghost predicate Inv<V(!new)>(ttl: real, s: State<V>) {
    && Unique(s.local)
    && (forall e :: e in s.local ==> SampleOk(ttl, s, e))
    && WorkOk(s)
  }

  lemma HeldLater<V(!new)>(s: State<V>, remote: map<string, V>, t: real, key: string, data: V, at: real)
    requires HeldRemotely(s, key, data, at)
    ensures HeldRemotely(At(s, remote, t), key, data, at)
  {
    var i :| 0 <= i < |s.history| && s.history[i].0 == at && key in s.history[i].1 && s.history[i].1[key] == data;
    assert At(s, remote, t).history[i] == s.history[i];
  }

  lemma HeldNow<V(!new)>(s: State<V>, remote: map<string, V>, t: real, key: string)
    requires key in remote
    ensures HeldRemotely(At(s, remote, t), key, remote[key], t)
  {
    assert At(s, remote, t).history[|s.history|] == (t, remote);
  }

  /** Recording an instant keeps every fact about earlier ones. */
  lemma AtInv<V(!new)>(ttl: real, s: State<V>, remote: map<string, V>, t: real)
    requires Inv(ttl, s) && t >= s.clock
    ensures Inv(ttl, At(s, remote, t))
  {
    var u := At(s, remote, t);
    forall e | e in u.local ensures SampleOk(ttl, u, e) {
      HeldLater(s, remote, t, e.key, e.value.data, e.value.heldAt);
    }
    if s.work.Storing? {
      forall x | x in s.work.items ensures HeldRemotely(u, x.0, x.1, s.work.heldAt) {
        HeldLater(s, remote, t, x.0, x.1, s.work.heldAt);
      }
    }
  }

  lemma {:induction false} FoundAreHeld<V>(remote: map<string, V>, keys: seq<string>)
    ensures forall x :: x in Found(remote, keys) ==> x.0 in remote && remote[x.0] == x.1 && x.0 in keys
  {
    if keys == [] {
    } else {
      FoundAreHeld(remote, keys[1..]);
    }
  }

  lemma {:induction false} FoundDistinct<V>(remote: map<string, V>, keys: seq<string>)
    requires KVS.Distinct(keys)
    ensures DistinctItems(Found(remote, keys))
  {
    if keys == [] {
    } else {
      KVS.DistinctTail(keys);
      FoundDistinct(remote, keys[1..]);
      FoundAreHeld(remote, keys[1..]);
      var rest := Found(remote, keys[1..]);
      assert forall i :: 0 <= i < |rest| ==> rest[i] in rest;
    }
  }

  /** The entries that a commit makes. */
  function Entries<V>(items: seq<(string, V)>, heldAt: real, t: real, ttl: real): Cache<string, Sample<V>> {
    seq(|items|, i requires 0 <= i < |items| => Entry(items[i].0, t + ttl, Sample(items[i].1, heldAt, t)))
  }

  lemma NewItemsTail<V(!new)>(c: Cache<string, Sample<V>>, items: seq<(string, V)>, expires: real, v: Sample<V>)
    requires NewItems(c, items) && items != []
    ensures NewItems(Assign(c, items[0].0, expires, v), items[1..])
  {
    var d, rest := Assign(c, items[0].0, expires, v), items[1..];
    forall i, j | 0 <= i < j < |rest| ensures rest[i].0 != rest[j].0 {
      assert items[i + 1].0 != items[j + 1].0;
    }
    forall y | y in rest ensures !Has(d, y.0) {
      var i :| 0 <= i < |rest| && rest[i] == y;
      assert items[0].0 != items[i + 1].0 && y in items;
      LookupAssign(c, items[0].0, expires, v, y.0);
    }
  }

  lemma FirstEntry<V>(items: seq<(string, V)>, heldAt: real, t: real, ttl: real)
    requires items != []
    ensures Entries(items, heldAt, t, ttl)
         == [Entry(items[0].0, t + ttl, Sample(items[0].1, heldAt, t))] + Entries(items[1..], heldAt, t, ttl)
  {
  }

  lemma {:induction false} StoredNew<V(!new)>(c: Cache<string, Sample<V>>, items: seq<(string, V)>,
                                              heldAt: real, t: real, ttl: real)
    requires NewItems(c, items)
    ensures Stored(c, items, heldAt, t, ttl) == c + Entries(items, heldAt, t, ttl)
    decreases |items|
  {
    if items == [] {
    } else {
      var v := Sample(items[0].1, heldAt, t);
      assert items[0] in items;
      AssignAbsent(c, items[0].0, t + ttl, v);
      NewItemsTail(c, items, t + ttl, v);
      StoredNew(Assign(c, items[0].0, t + ttl, v), items[1..], heldAt, t, ttl);
      FirstEntry(items, heldAt, t, ttl);
    }
  }

  /** A commit appends its entries, or renews the one that a put names in its place. */
  lemma CommitShape<V(!new)>(c: Cache<string, Sample<V>>, items: seq<(string, V)>, heldAt: real, t: real, ttl: real)
      returns (p: nat)
    requires NewItems(c, items) || |items| == 1
    ensures var es, d := Entries(items, heldAt, t, ttl), Stored(c, items, heldAt, t, ttl);
      if NewItems(c, items) then d == c + es
      else p < |c| && |es| == 1 && c[p].key == es[0].key && d == c[p := es[0]]
  {
    p := 0;
    if NewItems(c, items) {
      StoredNew(c, items, heldAt, t, ttl);
    } else {
      var v := Sample(items[0].1, heldAt, t);
      assert items == [items[0]] && items[1..] == [];
      p := AssignPresent(c, items[0].0, t + ttl, v);
      assert Stored(c, items, heldAt, t, ttl) == Assign(c, items[0].0, t + ttl, v);
    }
  }

  lemma EntriesAre<V>(items: seq<(string, V)>, heldAt: real, t: real, ttl: real)
    ensures var es := Entries(items, heldAt, t, ttl);
      forall e :: e in es ==> e.expires == t + ttl && e.value.heldAt == heldAt && e.value.storedAt == t
                              && (e.key, e.value.data) in items
  {
    var es := Entries(items, heldAt, t, ttl);
    forall e | e in es ensures (e.key, e.value.data) in items {
      var i :| 0 <= i < |es| && es[i] == e;
      assert items[i] == (e.key, e.value.data);
    }
  }

  lemma AppendUnique<V(!new)>(c: Cache<string, Sample<V>>, items: seq<(string, V)>, es: Cache<string, Sample<V>>)
    requires Unique(c) && NewItems(c, items) && |es| == |items| && forall i :: 0 <= i < |es| ==> es[i].key == items[i].0
    ensures Unique(c + es)
  {
    forall i, j | 0 <= i < |c| && 0 <= j < |es| ensures c[i].key != es[j].key {
      assert items[j] in items && c[i] in c;
    }
  }

  lemma CommitInv<V(!new)>(ttl: real, s: State<V>, t: real)
    requires Inv(ttl, s) && Enabled(s, Commit(t))
    ensures Inv(ttl, Next(ttl, s, Commit(t)))
  {
    AtInv(ttl, s, s.remote, t);
    var u := Next(ttl, s, Commit(t));
    var es := Entries(s.work.items, s.work.heldAt, t, ttl);
    var p := CommitShape(s.local, s.work.items, s.work.heldAt, t, ttl);
    EntriesAre(s.work.items, s.work.heldAt, t, ttl);
    if NewItems(s.local, s.work.items) { AppendUnique(s.local, s.work.items, es); }
    forall e | e in u.local ensures SampleOk(ttl, u, e) {
      assert e in s.local || e in es;
      assert SampleOk(ttl, At(s, s.remote, t), e);
    }
  }

  lemma ReadInv<V(!new)>(ttl: real, s: State<V>, keys: seq<string>, now: real)
    requires Inv(ttl, s) && Enabled(s, Read(keys, now))
    ensures Inv(ttl, Next(ttl, s, Read(keys, now)))
  {
    AtInv(ttl, s, s.remote, now);
    EvictKeeps(s.local, now);
    MissedKeys(Evict(s.local, now), keys);
  }

  lemma FetchInv<V(!new)>(ttl: real, s: State<V>, t: real)
    requires Inv(ttl, s) && Enabled(s, Fetch(t))
    ensures Inv(ttl, Next(ttl, s, Fetch(t)))
  {
    AtInv(ttl, s, s.remote, t);
    var items := Found(s.remote, s.work.keys);
    FoundAreHeld(s.remote, s.work.keys);
    FoundDistinct(s.remote, s.work.keys);
    forall x | x in items ensures HeldRemotely(At(s, s.remote, t), x.0, x.1, t) {
      HeldNow(s, s.remote, t, x.0);
    }
  }

  lemma NextInv<V(!new)>(ttl: real, s: State<V>, e: Event<V>)
    requires Inv(ttl, s) && Enabled(s, e)
    ensures Inv(ttl, Next(ttl, s, e))
  {
    match e
    case Other(remote, t) => AtInv(ttl, s, remote, t);
    case Read(keys, now) => ReadInv(ttl, s, keys, now);
    case Fetch(t) => FetchInv(ttl, s, t);
    case Write(key, data, t) =>
      AtInv(ttl, s, s.remote[key := data], t);
      HeldNow(s, s.remote[key := data], t, key);
    case Commit(t) => CommitInv(ttl, s, t);
    case Remove(key, t) =>
      AtInv(ttl, s, s.remote - {key}, t);
      DeleteKeeps(s.local, key);
    case Fail =>
  }

  lemma {:induction false} RunKeeps<V(!new)>(ttl: real, s: State<V>, events: seq<Event<V>>)
    requires Inv(ttl, s)
    ensures Run(ttl, s, events).Some? ==> Inv(ttl, Run(ttl, s, events).value)
    decreases |events|
  {
    if events == [] {
    } else if Enabled(s, events[0]) {
      NextInv(ttl, s, events[0]);
      RunKeeps(ttl, Next(ttl, s, events[0]), events[1..]);
    }
  }

  lemma ReachableInv<V(!new)>(ttl: real, s: State<V>)
    requires Reachable(ttl, s)
    ensures Inv(ttl, s)
  {
    var remote, events :| Run(ttl, Init(remote), events) == Some(s);
    RunKeeps(ttl, Init(remote), events);
  }

  /** In every run, a value found locally was the remote value at an instant before it was stored. */
  lemma HitWasHeld<V(!new)>(ttl: real, s: State<V>, key: string, now: real)
    requires Reachable(ttl, s) && Hit(s, key, now).Some?
    ensures var v := Hit(s, key, now).value;
      HeldRemotely(s, key, v.data, v.heldAt) && v.heldAt <= v.storedAt <= s.clock
  {
    ReachableInv(ttl, s);
    EvictKeeps(s.local, now);
    assert SampleOk(ttl, s, Lookup(Evict(s.local, now), key).value);
  }
}
