/** The two-level store over whole runs of one client: the local cache is invisible. */
module StoreRuns {
  import opened Prelude
  import opened ExpiringCache
  import opened KeyValueStore

  datatype Op<V> =
    | Put(key: string, data: V, at: real)
    | Get(key: string, now: real, at: real)
    | GetMany(keys: set<string>, asked: seq<string>, now: real, at: real)
    | Remove(key: string)

  datatype Reply<V> = Done | One(answer: Option<V>) | All(answers: map<string, Option<V>>) | Removed(found: bool)

  function LocalAfter<V>(ttl: real, local: Local<V>, remote: Remote<V>, op: Op<V>): Local<V> {
    match op
    case Put(key, data, at) => Assign(local, key, at + ttl, data)
    case Get(key, now, at) =>
      var kept := Evict(local, now);
      if Has(kept, key) then kept else Fetched(kept, remote, [key], at + ttl)
    case GetMany(_, asked, now, at) => Fetched(Evict(local, now), remote, asked, at + ttl)
    case Remove(key) => Delete(local, key)
  }

  function RemoteAfter<V>(remote: Remote<V>, op: Op<V>): Remote<V> {
    match op
    case Put(key, data, _) => remote[key := data]
    case Remove(key) => remote - {key}
    case _ => remote
  }

  function ReplyTo<V>(local: Local<V>, remote: Remote<V>, op: Op<V>): Reply<V> {
    match op
    case Put(_, _, _) => Done
    case Get(key, now, _) => One(Answer(local, remote, key, now))
    case GetMany(keys, _, now, _) => All(map k | k in keys :: Answer(local, remote, k, now))
    case Remove(key) => Removed(key in remote)
  }

  /** The replies of the two-level store to a run of operations. */
  function Replies<V>(ttl: real, local: Local<V>, remote: Remote<V>, ops: seq<Op<V>>): seq<Reply<V>>
    decreases |ops|
  {
    if ops == [] then []
    else
      [ReplyTo(local, remote, ops[0])]
      + Replies(ttl, LocalAfter(ttl, local, remote, ops[0]), RemoteAfter(remote, ops[0]), ops[1..])
  }

  /** The replies of a plain map. */
  function PlainReplies<V>(remote: Remote<V>, ops: seq<Op<V>>): seq<Reply<V>>
    decreases |ops|
  {
    if ops == [] then []
    else [ReplyTo([], remote, ops[0])] + PlainReplies(RemoteAfter(remote, ops[0]), ops[1..])
  }

  /** Whatever is held locally is the remote record. */
  ghost predicate Coherent<V>(local: Local<V>, remote: Remote<V>) {
    && Unique(local)
    && forall i :: 0 <= i < |local| ==> local[i].key in remote && remote[local[i].key] == local[i].value
  }

  lemma EvictCoherent<V>(local: Local<V>, remote: Remote<V>, now: real)
    requires Coherent(local, remote)
    ensures Coherent(Evict(local, now), remote)
  {
    EvictKeeps(local, now);
    var n := EvictIsSuffix(local, now);
  }

  lemma AssignCoherent<V>(local: Local<V>, remote: Remote<V>, k: string, expires: real, v: V)
    requires Coherent(local, remote)
    ensures Coherent(Assign(local, k, expires, v), remote[k := v])
  {
    AssignUnique(local, k, expires, v);
    if Has(local, k) {
      var p := AssignPresent(local, k, expires, v);
    } else {
      AssignAbsent(local, k, expires, v);
    }
  }

  lemma {:induction false} FetchedCoherent<V>(local: Local<V>, remote: Remote<V>, asked: seq<string>, expires: real)
    requires Coherent(local, remote)
    ensures Coherent(Fetched(local, remote, asked, expires), remote)
    decreases |asked|
  {
    if asked == [] {
    } else {
      var k := asked[0];
      if k in remote {
        AssignCoherent(local, remote, k, expires, remote[k]);
        assert remote[k := remote[k]] == remote;
        FetchedCoherent(Assign(local, k, expires, remote[k]), remote, asked[1..], expires);
      } else {
        FetchedCoherent(local, remote, asked[1..], expires);
      }
    }
  }

  lemma DeleteCoherent<V>(local: Local<V>, remote: Remote<V>, k: string)
    requires Coherent(local, remote)
    ensures Coherent(Delete(local, k), remote - {k})
  {
    DeleteKeeps(local, k);
    LookupDelete(local, k, k);
    var d := Delete(local, k);
    forall i | 0 <= i < |d| ensures d[i].key in remote - {k} && (remote - {k})[d[i].key] == d[i].value {
      assert d[i] in d && d[i].key != k;
      var j :| 0 <= j < |local| && local[j] == d[i];
    }
  }

  lemma OpCoherent<V>(ttl: real, local: Local<V>, remote: Remote<V>, op: Op<V>)
    requires Coherent(local, remote)
    ensures Coherent(LocalAfter(ttl, local, remote, op), RemoteAfter(remote, op))
  {
    match op
    case Put(key, data, at) => AssignCoherent(local, remote, key, at + ttl, data);
    case Get(key, now, at) =>
      EvictCoherent(local, remote, now);
      FetchedCoherent(Evict(local, now), remote, [key], at + ttl);
    case GetMany(_, asked, now, at) =>
      EvictCoherent(local, remote, now);
      FetchedCoherent(Evict(local, now), remote, asked, at + ttl);
    case Remove(key) => DeleteCoherent(local, remote, key);
  }

  lemma CoherentAnswer<V>(local: Local<V>, remote: Remote<V>, key: string, now: real)
    requires Coherent(local, remote)
    ensures Answer(local, remote, key, now) == Answer([], remote, key, now)
  {
    EvictCoherent(local, remote, now);
  }

  lemma CoherentReply<V>(local: Local<V>, remote: Remote<V>, op: Op<V>)
    requires Coherent(local, remote)
    ensures ReplyTo(local, remote, op) == ReplyTo([], remote, op)
  {
    forall key, now { CoherentAnswer(local, remote, key, now); }
  }

  /**
   With no other client, every reply of the two-level store is the reply a plain map would
   give, for every run of operations and whatever has been evicted on the way.
   */
  lemma {:induction false} StoreIsTransparent<V>(ttl: real, local: Local<V>, remote: Remote<V>, ops: seq<Op<V>>)
    requires Coherent(local, remote)
    ensures Replies(ttl, local, remote, ops) == PlainReplies(remote, ops)
    decreases |ops|
  {
    if ops == [] {
    } else {
      var op := ops[0];
      CoherentReply(local, remote, op);
      OpCoherent(ttl, local, remote, op);
      StoreIsTransparent(ttl, LocalAfter(ttl, local, remote, op), RemoteAfter(remote, op), ops[1..]);
    }
  }

  // The store object itself.

  /** The operation with the keys that it asks the remote store for. */
  function Asking<V>(op: Op<V>, asked: seq<string>): Op<V> {
    if op.GetMany? then op.(asked := asked) else op
  }

  /** Perform an operation; which keys a GetMany asks for, and in what order, is up to the store. */
  method Perform<V>(store: KeyValueStore<V>, op: Op<V>) returns (reply: Reply<V>, asked: seq<string>)
    modifies store`remote, store.cache
    ensures op.GetMany? ==> Missing(Evict(old(store.cache.items), op.now), op.keys, asked)
    ensures reply == ReplyTo(old(store.cache.items), old(store.remote), op)
    ensures store.cache.items
         == LocalAfter(store.localTTL, old(store.cache.items), old(store.remote), Asking(op, asked))
    ensures store.remote == RemoteAfter(old(store.remote), op)
  {
    asked := [];
    match op
    case Put(key, data, at) =>
      store.Put(key, data, at);
      reply := Done;
    case Get(key, now, at) =>
      var r := store.Get(key, now, at);
      reply := One(r);
    case GetMany(keys, _, now, at) =>
      var r;
      r, asked := store.GetMany(keys, now, at);
      reply := All(r);
    case Remove(key) =>
      var found := store.Remove(key);
      reply := Removed(found);
  }

  /** Perform operations one after the other: the replies are those of a plain map. */
  method PerformAll<V>(store: KeyValueStore<V>, ops: seq<Op<V>>) returns (replies: seq<Reply<V>>)
    requires Coherent(store.cache.items, store.remote)
    modifies store`remote, store.cache
    ensures Coherent(store.cache.items, store.remote)
    ensures replies == PlainReplies(old(store.remote), ops)
  {
    replies := [];
    assert ops[0..] == ops;
    for i := 0 to |ops|
      invariant Coherent(store.cache.items, store.remote)
      invariant replies + PlainReplies(store.remote, ops[i..]) == PlainReplies(old(store.remote), ops)
    {
      ghost var local, remote := store.cache.items, store.remote;
      var reply, asked := Perform(store, ops[i]);
      OpCoherent(store.localTTL, local, remote, Asking(ops[i], asked));
      CoherentReply(local, remote, ops[i]);
      assert ops[i..][1..] == ops[i + 1..];
      replies := replies + [reply];
    }
  }
}
