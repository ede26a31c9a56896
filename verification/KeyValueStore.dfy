/** The two-level store: a local expiring cache in front of a remote map. */
module KeyValueStore {
  import opened Prelude
  import opened ExpiringCache

  type Local<+V> = Cache<string, V>

  type Remote<V> = map<string, V>

  /** What a single get answers; None is RecordNotFound. */
  function Answer<V>(local: Local<V>, remote: Remote<V>, key: string, now: real): Option<V> {
    var e := Lookup(Evict(local, now), key);
    if e.Some? then Some(e.value.value)
    else if key in remote then Some(remote[key]) else None
  }

  /** The local cache after the answers for the asked keys have been stored, in that order. */
  function Fetched<V>(local: Local<V>, remote: Remote<V>, asked: seq<string>, expires: real): Local<V>
    decreases |asked|
  {
    if asked == [] then local
    else
      var k := asked[0];
      Fetched(if k in remote then Assign(local, k, expires, remote[k]) else local, remote, asked[1..], expires)
  }

  /** Every key once, and only keys that are not held locally. */
  ghost predicate Missing<V>(local: Local<V>, keys: set<string>, asked: seq<string>) {
    Distinct(asked) && forall k :: k in asked <==> k in keys && !Has(local, k)
  }

  ghost predicate Distinct(asked: seq<string>) {
    forall i, j :: 0 <= i < j < |asked| ==> asked[i] != asked[j]
  }

  lemma DistinctAppend(asked: seq<string>, k: string)
    requires Distinct(asked) && k !in asked
    ensures Distinct(asked + [k])
    ensures forall q :: q in asked + [k] <==> q in asked || q == k
  {
  }

  ghost predicate AnswersFor<V>(remote: Remote<V>, answers: map<string, Option<V>>) {
    forall k :: k in answers ==> answers[k] == if k in remote then Some(remote[k]) else None
  }

  lemma {:induction false} FetchedAppend<V>(local: Local<V>, remote: Remote<V>, asked: seq<string>,
                                            k: string, expires: real)
    ensures Fetched(local, remote, asked + [k], expires)
         == var l := Fetched(local, remote, asked, expires);
            if k in remote then Assign(l, k, expires, remote[k]) else l
    decreases |asked|
  {
    if asked == [] {
      assert ([] + [k])[1..] == [];
    } else {
      assert (asked + [k])[1..] == asked[1..] + [k];
      var q := asked[0];
      var next := if q in remote then Assign(local, q, expires, remote[q]) else local;
      FetchedAppend(next, remote, asked[1..], k, expires);
    }
  }

  lemma {:induction false} FetchedLookup<V>(local: Local<V>, remote: Remote<V>, asked: seq<string>,
                                            expires: real, q: string)
    ensures Lookup(Fetched(local, remote, asked, expires), q)
         == if q in asked && q in remote then Some(Entry(q, expires, remote[q])) else Lookup(local, q)
    decreases |asked|
  {
    if asked == [] {
    } else {
      var k := asked[0];
      if k in remote {
        LookupAssign(local, k, expires, remote[k], q);
        FetchedLookup(Assign(local, k, expires, remote[k]), remote, asked[1..], expires, q);
      } else {
        FetchedLookup(local, remote, asked[1..], expires, q);
      }
    }
  }

  ghost predicate Bounded<V>(local: Local<V>, expires: real) {
    forall i :: 0 <= i < |local| ==> local[i].expires <= expires
  }

  lemma AppendLatest<V>(local: Local<V>, k: string, expires: real, v: V)
    requires !Has(local, k) && Sorted(local) && Bounded(local, expires)
    ensures Sorted(Assign(local, k, expires, v)) && Bounded(Assign(local, k, expires, v), expires)
  {
    AssignAbsent(local, k, expires, v);
  }

  /** Fetching keys that are not held appends them, so the cache stays sorted by expiry. */
  lemma {:induction false} FetchedSorted<V>(local: Local<V>, remote: Remote<V>, asked: seq<string>, expires: real)
    requires Distinct(asked) && forall k :: k in asked ==> !Has(local, k)
    requires Sorted(local) && Bounded(local, expires)
    ensures Sorted(Fetched(local, remote, asked, expires)) && Bounded(Fetched(local, remote, asked, expires), expires)
    decreases |asked|
  {
    if asked == [] {
    } else {
      var k, rest := asked[0], asked[1..];
      DistinctTail(asked);
      if k in remote {
        AppendLatest(local, k, expires, remote[k]);
        forall q | q in rest ensures !Has(Assign(local, k, expires, remote[k]), q) {
          assert q in asked && q != k;
          LookupAssign(local, k, expires, remote[k], q);
        }
        FetchedSorted(Assign(local, k, expires, remote[k]), remote, rest, expires);
      } else {
        FetchedSorted(local, remote, rest, expires);
      }
    }
  }

  lemma DistinctTail(asked: seq<string>)
    requires Distinct(asked) && asked != []
    ensures Distinct(asked[1..]) && asked[0] !in asked[1..]
  {
    forall i, j | 0 <= i < j < |asked[1..]| ensures asked[1..][i] != asked[1..][j] {
      assert asked[i + 1] != asked[j + 1];
    }
  }

  class KeyValueStore<V> {
    const localTTL: real
    const cache: OrderedDict<string, V>
    /** The records behind the remote client. */
    var remote: Remote<V>

    constructor (localTTL: real, remote: Remote<V>)
      ensures this.localTTL == localTTL && this.remote == remote
      ensures fresh(cache) && cache.items == []
    {
      this.localTTL, this.remote := localTTL, remote;
      cache := new OrderedDict();
    }

    method Put(key: string, data: V, at: real)
      modifies this`remote, cache
      ensures remote == old(remote)[key := data]
      ensures cache.items == Assign(old(cache.items), key, at + localTTL, data)
    {
      remote := remote[key := data];
      cache.Set(key, at + localTTL, data);
    }

    method Get(key: string, now: real, at: real) returns (r: Option<V>)
      modifies cache
      ensures r == Answer(old(cache.items), remote, key, now)
      ensures var kept := Evict(old(cache.items), now);
        cache.items == if Has(kept, key) then kept else Fetched(kept, remote, [key], at + localTTL)
    {
      cache.ClearCache(now);
      if Has(cache.items, key) {
        return Some(Lookup(cache.items, key).value.value);
      }
      assert [key][1..] == [];
      if key !in remote {
        return None;
      }
      r := Some(remote[key]);
      cache.Set(key, at + localTTL, remote[key]);
    }

    /**
     One answer for every key, each the same as a single get would give; only keys that are
     not held locally are asked of the remote store.
     */
    method GetMany(keys: set<string>, now: real, at: real)
      returns (result: map<string, Option<V>>, asked: seq<string>)
      modifies cache
      ensures result.Keys == keys
      ensures forall k :: k in keys ==> result[k] == Answer(old(cache.items), remote, k, now)
      ensures Missing(Evict(old(cache.items), now), keys, asked)
      ensures cache.items == Fetched(Evict(old(cache.items), now), remote, asked, at + localTTL)
    {
      cache.ClearCache(now);
      ghost var kept := cache.items;
      var remoteKeys := set k | k in keys && !Has(cache.items, k);
      var held := map k | k in keys - remoteKeys :: Some(Lookup(cache.items, k).value.value);
      var dataMap: map<string, Option<V>> := map[];
      asked := [];
      var left := remoteKeys;
      while left != {}
        invariant left <= remoteKeys && dataMap.Keys == remoteKeys - left
        invariant forall k :: k in asked <==> k in dataMap
        invariant Distinct(asked) && AnswersFor(remote, dataMap)
        invariant cache.items == Fetched(kept, remote, asked, at + localTTL)
        decreases left
      {
        var key :| key in left;
        FetchedAppend(kept, remote, asked, key, at + localTTL);
        DistinctAppend(asked, key);
        if key in remote {
          dataMap := dataMap[key := Some(remote[key])];
          cache.Set(key, at + localTTL, remote[key]);
        } else {
          dataMap := dataMap[key := None];
        }
        asked := asked + [key];
        left := left - {key};
      }
      result := dataMap + held;
    }

    /** True if the remote store had the record. */
    method Remove(key: string) returns (found: bool)
      modifies this`remote, cache
      ensures found <==> key in old(remote)
      ensures remote == old(remote) - {key} && cache.items == Delete(old(cache.items), key)
    {
      if Has(cache.items, key) {
        cache.Del(key);
      } else {
        var p := DeleteSplits(cache.items, key);
      }
      found := key in remote;
      remote := remote - {key};
    }
  }
}
