/**
 The operations of the store object are runs of its steps, so that what holds over runs of the
 steps holds of the object.
 */
module StoreLink {
  import opened Prelude
  import opened ExpiringCache
  import opened StoreSteps
  import KVS = KeyValueStore

  /** The local level without history, as the object holds it. */
  function Plain<V>(c: Cache<string, Sample<V>>): Cache<string, V> {
    if c == [] then [] else [Entry(c[0].key, c[0].expires, c[0].value.data)] + Plain(c[1..])
  }

  lemma {:induction false} PlainEvict<V>(c: Cache<string, Sample<V>>, now: real)
    ensures Plain(Evict(c, now)) == Evict(Plain(c), now)
  {
    if c == [] {
    } else {
      assert Plain(c)[1..] == Plain(c[1..]);
      PlainEvict(c[1..], now);
    }
  }

  lemma {:induction false} PlainHas<V>(c: Cache<string, Sample<V>>, k: string)
    ensures Has(Plain(c), k) <==> Has(c, k)
    ensures Has(c, k) ==> Lookup(Plain(c), k).value.value == Lookup(c, k).value.value.data
  {
    if c == [] {
    } else {
      assert Plain(c)[1..] == Plain(c[1..]);
      PlainHas(c[1..], k);
    }
  }

  lemma {:induction false} PlainAssign<V>(c: Cache<string, Sample<V>>, k: string, expires: real, v: Sample<V>)
    ensures Plain(Assign(c, k, expires, v)) == Assign(Plain(c), k, expires, v.data)
  {
    if c == [] {
      assert Assign(c, k, expires, v)[1..] == [];
    } else {
      assert Plain(c)[1..] == Plain(c[1..]);
      assert Assign(c, k, expires, v)[1..] == if c[0].key == k then c[1..] else Assign(c[1..], k, expires, v);
      PlainAssign(c[1..], k, expires, v);
    }
  }

  lemma {:induction false} PlainDelete<V>(c: Cache<string, Sample<V>>, k: string)
    ensures Plain(Delete(c, k)) == Delete(Plain(c), k)
  {
    if c == [] {
    } else {
      assert Plain(c)[1..] == Plain(c[1..]);
      assert c[0].key != k ==> Delete(c, k)[1..] == Delete(c[1..], k);
      PlainDelete(c[1..], k);
    }
  }

  /** Committing what the remote store answered is what the object does with the answers. */
  lemma {:induction false} StoredIsFetched<V>(c: Cache<string, Sample<V>>, remote: map<string, V>, keys: seq<string>,
                                              heldAt: real, t: real, ttl: real)
    ensures Plain(Stored(c, Found(remote, keys), heldAt, t, ttl)) == KVS.Fetched(Plain(c), remote, keys, t + ttl)
    decreases |keys|
  {
    if keys == [] {
    } else if keys[0] in remote {
      var v := Sample(remote[keys[0]], heldAt, t);
      assert Found(remote, keys)[1..] == Found(remote, keys[1..]);
      PlainAssign(c, keys[0], t + ttl, v);
      StoredIsFetched(Assign(c, keys[0], t + ttl, v), remote, keys[1..], heldAt, t, ttl);
    } else {
      assert Found(remote, keys) == Found(remote, keys[1..]);
      StoredIsFetched(c, remote, keys[1..], heldAt, t, ttl);
    }
  }

  // The runs.

  /** Evict and look up; if anything is missing, ask for it and store the answers. */
  function ReadEvents<V>(keys: seq<string>, missed: seq<string>, now: real, t: real, at: real): seq<Event<V>> {
    if missed == [] then [Read(keys, now)] else [Read(keys, now), Fetch(t), Commit(at)]
  }

  /** Between operations, with this local and remote content. */
  ghost predicate Rests<V>(s: State<V>, local: Cache<string, V>, remote: map<string, V>) {
    s.work.Idle? && Plain(s.local) == local && s.remote == remote
  }

  ghost predicate LeadsTo<V>(ttl: real, s: State<V>, events: seq<Event<V>>, local: Cache<string, V>,
                             remote: map<string, V>) {
    Run(ttl, s, events).Some? && Rests(Run(ttl, s, events).value, local, remote)
  }

  lemma OneStep<V>(ttl: real, s: State<V>, e: Event<V>)
    requires Enabled(s, e)
    ensures Run(ttl, s, [e]) == Some(Next(ttl, s, e))
  {
    assert [e][1..] == [] && Run(ttl, Next(ttl, s, e), []) == Some(Next(ttl, s, e));
  }

  lemma TwoSteps<V>(ttl: real, s: State<V>, e: Event<V>, f: Event<V>)
    requires Enabled(s, e) && Enabled(Next(ttl, s, e), f)
    ensures Run(ttl, s, [e, f]) == Some(Next(ttl, Next(ttl, s, e), f))
  {
    OneStep(ttl, s, e);
    OneStep(ttl, Next(ttl, s, e), f);
    RunThen(ttl, s, [e], [f]);
    assert [e] + [f] == [e, f];
  }

  lemma ReadLeadsTo<V>(ttl: real, s: State<V>, keys: seq<string>, now: real, t: real, at: real)
    requires s.work.Idle? && KVS.Distinct(keys) && s.clock <= now <= t <= at
    ensures var missed := Missed(Evict(s.local, now), keys);
      LeadsTo(ttl, s, ReadEvents(keys, missed, now, t, at),
              KVS.Fetched(Evict(Plain(s.local), now), s.remote, missed, at + ttl), s.remote)
  {
    var kept := Evict(s.local, now);
    var missed := Missed(kept, keys);
    var u := Next(ttl, s, Read(keys, now));
    PlainEvict(s.local, now);
    OneStep(ttl, s, Read(keys, now));
    if missed != [] {
      TwoSteps(ttl, u, Fetch(t), Commit(at));
      RunThen(ttl, s, [Read(keys, now)], [Fetch(t), Commit(at)]);
      assert [Read(keys, now)] + [Fetch(t), Commit(at)] == ReadEvents<V>(keys, missed, now, t, at);
      StoredIsFetched(kept, s.remote, missed, t, at, ttl);
    }
  }

  /** A single get, with the remote read at t in between. */
  lemma GetIsRun<V>(ttl: real, s: State<V>, key: string, now: real, t: real, at: real)
    requires s.work.Idle? && s.clock <= now <= t <= at
    ensures var kept := Evict(Plain(s.local), now);
      LeadsTo(ttl, s, ReadEvents([key], if Has(kept, key) then [] else [key], now, t, at),
              if Has(kept, key) then kept else KVS.Fetched(kept, s.remote, [key], at + ttl), s.remote)
  {
    PlainEvict(s.local, now);
    PlainHas(Evict(s.local, now), key);
    assert [key][1..] == [] && Missed(Evict(s.local, now), []) == [];
    assert Missed(Evict(s.local, now), [key]) == if Has(Evict(s.local, now), key) then [] else [key];
    ReadLeadsTo(ttl, s, [key], now, t, at);
  }

  /** It answers with what is found locally, or with what the remote store answers. */
  lemma GetAnswers<V>(s: State<V>, key: string, now: real)
    ensures KVS.Answer(Plain(s.local), s.remote, key, now)
         == if Hit(s, key, now).Some? then Some(Hit(s, key, now).value.data)
            else if key in s.remote then Some(s.remote[key]) else None
  {
    PlainEvict(s.local, now);
    PlainHas(Evict(s.local, now), key);
  }

  lemma {:induction false} ListOf(keys: set<string>) returns (ks: seq<string>)
    ensures KVS.Distinct(ks) && forall k :: k in ks <==> k in keys
    decreases |keys|
  {
    if keys == {} {
      ks := [];
    } else {
      var k :| k in keys;
      var rest := ListOf(keys - {k});
      KVS.DistinctAppend(rest, k);
      ks := rest + [k];
    }
  }

  lemma {:induction false} MissedParts<V>(c: Cache<string, Sample<V>>, asked: seq<string>, held: seq<string>)
    requires forall k :: k in asked ==> !Has(c, k)
    requires forall k :: k in held ==> Has(c, k)
    ensures Missed(c, asked + held) == asked
    decreases |asked| + |held|
  {
    if asked == [] && held == [] {
    } else if asked == [] {
      assert asked + held == held && held[1..] == [] + held[1..];
      MissedParts(c, [], held[1..]);
    } else {
      assert (asked + held)[1..] == asked[1..] + held;
      MissedParts(c, asked[1..], held);
    }
  }

  lemma DistinctJoin(a: seq<string>, b: seq<string>)
    requires KVS.Distinct(a) && KVS.Distinct(b) && forall k :: k in b ==> k !in a
    ensures KVS.Distinct(a + b)
  {
    var ab := a + b;
    forall i, j | 0 <= i < j < |ab| ensures ab[i] != ab[j] {
      if i < |a| <= j { assert a[i] in a && b[j - |a|] in b; }
    }
  }

  /** Asking for many, in whatever order the object takes them. */
  lemma GetManyIsRun<V>(ttl: real, s: State<V>, keys: set<string>, asked: seq<string>, now: real, t: real, at: real)
      returns (ks: seq<string>)
    requires s.work.Idle? && s.clock <= now <= t <= at
    requires KVS.Missing(Evict(Plain(s.local), now), keys, asked)
    ensures KVS.Distinct(ks) && forall k :: k in ks <==> k in keys
    ensures LeadsTo(ttl, s, ReadEvents(ks, asked, now, t, at),
                    KVS.Fetched(Evict(Plain(s.local), now), s.remote, asked, at + ttl), s.remote)
  {
    var kept := Evict(s.local, now);
    PlainEvict(s.local, now);
    forall k ensures Has(Plain(kept), k) <==> Has(kept, k) {
      PlainHas(kept, k);
    }
    var held := ListOf(set k | k in keys && k !in asked);
    ks := asked + held;
    MissedParts(kept, asked, held);
    DistinctJoin(asked, held);
    ReadLeadsTo(ttl, s, ks, now, t, at);
  }

  /** A put, with the remote write at t. */
  lemma PutIsRun<V>(ttl: real, s: State<V>, key: string, data: V, t: real, at: real)
    requires s.work.Idle? && s.clock <= t <= at
    ensures LeadsTo(ttl, s, [Write(key, data, t), Commit(at)],
                    Assign(Plain(s.local), key, at + ttl, data), s.remote[key := data])
  {
    var u := Next(ttl, s, Write(key, data, t));
    TwoSteps(ttl, s, Write(key, data, t), Commit(at));
    var items := [(key, data)];
    assert items[1..] == [];
    PlainAssign(s.local, key, at + ttl, Sample(data, t, at));
    assert Stored(s.local, items, t, at, ttl) == Assign(s.local, key, at + ttl, Sample(data, t, at));
  }

  lemma RemoveIsRun<V>(ttl: real, s: State<V>, key: string, t: real)
    requires s.work.Idle? && s.clock <= t
    ensures LeadsTo(ttl, s, [Remove(key, t)], Delete(Plain(s.local), key), s.remote - {key})
  {
    OneStep(ttl, s, Remove(key, t));
    PlainDelete(s.local, key);
  }
}
