/**
 The cache structure shared by every cache of the library: a dictionary that remembers the
 order in which keys were inserted, each key with an expiration time and a value.
 */
module ExpiringCache {
  import opened Prelude

  datatype Entry<+K, +V> = Entry(key: K, expires: real, value: V)

  /** The items of an insertion-ordered dictionary, oldest first. */
  type Cache<+K, +V> = seq<Entry<K, V>>

  ghost predicate Unique<K, V>(c: Cache<K, V>) {
    forall i, j :: 0 <= i < j < |c| ==> c[i].key != c[j].key
  }

  /** Insertion order is also expiry order. */
  ghost predicate Sorted<K, V>(c: Cache<K, V>) {
    forall i, j :: 0 <= i < j < |c| ==> c[i].expires <= c[j].expires
  }

  /** The same, as far as it matters from an instant on: behind an entry still good then, nothing expires earlier. */
  ghost predicate OrderedFrom<K, V>(c: Cache<K, V>, clock: real) {
    forall i, j :: 0 <= i < j < |c| && c[i].expires >= clock ==> c[i].expires <= c[j].expires
  }

  /** No entry still good expires after what is due for itself and for those behind it. */
  ghost predicate Timely<K, V>(c: Cache<K, V>, clock: real, due: Entry<K, V> -> real) {
    forall i, j :: 0 <= i <= j < |c| && c[i].expires >= clock ==> c[i].expires <= due(c[j])
  }

  function Lookup<K(==), V>(c: Cache<K, V>, k: K): (r: Option<Entry<K, V>>)
    ensures r.Some? ==> r.value in c && r.value.key == k
    ensures r.None? ==> forall e :: e in c ==> e.key != k
  {
    if c == [] then None
    else if c[0].key == k then Some(c[0])
    else Lookup(c[1..], k)
  }

  predicate Has<K(==), V>(c: Cache<K, V>, k: K) {
    Lookup(c, k).Some?
  }

  /** `c[k] = (expires, v)`: a key that is present keeps its place, a new one goes last. */
  function Assign<K(==), V>(c: Cache<K, V>, k: K, expires: real, v: V): Cache<K, V> {
    if c == [] then [Entry(k, expires, v)]
    else if c[0].key == k then [Entry(k, expires, v)] + c[1..]
    else [c[0]] + Assign(c[1..], k, expires, v)
  }

  function Delete<K(==), V>(c: Cache<K, V>, k: K): Cache<K, V> {
    if c == [] then []
    else if c[0].key == k then c[1..]
    else [c[0]] + Delete(c[1..], k)
  }

  /** What `__clear_cache__` leaves: expired entries go, up to the first that is still good. */
  function Evict<K, V>(c: Cache<K, V>, now: real): Cache<K, V> {
    if c == [] || c[0].expires >= now then c else Evict(c[1..], now)
  }

  /** What eviction is for: only the entries that have not expired. */
  function Fresh<K, V>(c: Cache<K, V>, now: real): Cache<K, V> {
    if c == [] then []
    else if c[0].expires >= now then [c[0]] + Fresh(c[1..], now)
    else Fresh(c[1..], now)
  }

  lemma {:induction false} FreshIn<K, V>(c: Cache<K, V>, now: real)
    ensures forall e :: e in Fresh(c, now) <==> e in c && e.expires >= now
  {
    if c == [] {
    } else {
      FreshIn(c[1..], now);
      assert forall e :: e in c <==> e == c[0] || e in c[1..];
    }
  }

  lemma {:induction false} EvictIsSuffix<K, V>(c: Cache<K, V>, now: real) returns (n: nat)
    ensures n <= |c| && Evict(c, now) == c[n..]
    ensures forall i :: 0 <= i < n ==> c[i].expires < now
    ensures n < |c| ==> c[n].expires >= now
  {
    if c == [] || c[0].expires >= now {
      n := 0;
    } else {
      var m := EvictIsSuffix(c[1..], now);
      n := m + 1;
      assert c[1..][m..] == c[n..];
      forall i | 0 <= i < n ensures c[i].expires < now {
        if i > 0 { assert c[1..][i - 1] == c[i]; }
      }
    }
  }

  lemma {:induction false} FreshOfFresh<K, V>(c: Cache<K, V>, now: real)
    ensures Fresh(c, now) == c <==> forall e :: e in c ==> e.expires >= now
  {
    FreshIn(c, now);
    if c == [] {
    } else {
      FreshOfFresh(c[1..], now);
      assert c == [c[0]] + c[1..];
      if forall e :: e in c ==> e.expires >= now {
        assert c[0] in c;
      }
      FreshLength(c[1..], now);
    }
  }

  lemma {:induction false} FreshLength<K, V>(c: Cache<K, V>, now: real)
    ensures |Fresh(c, now)| <= |c|
  {
    if c == [] {
    } else {
      FreshLength(c[1..], now);
    }
  }

  lemma {:induction false} FreshSkips<K, V>(c: Cache<K, V>, n: nat, now: real)
    requires n <= |c| && forall i :: 0 <= i < n ==> c[i].expires < now
    ensures Fresh(c, now) == Fresh(c[n..], now)
    decreases n
  {
    if n == 0 {
    } else {
      FreshSkips(c[1..], n - 1, now);
      assert c[1..][n - 1..] == c[n..];
    }
  }

  /** Eviction is exact at an instant unless a stale entry stands behind a good one. */
  lemma EvictExactIff<K, V>(c: Cache<K, V>, now: real)
    ensures Evict(c, now) == Fresh(c, now)
       <==> forall i, j :: 0 <= i < j < |c| && c[i].expires >= now ==> c[j].expires >= now
  {
    var n := EvictIsSuffix(c, now);
    FreshSkips(c, n, now);
    FreshOfFresh(c[n..], now);
    if Evict(c, now) == Fresh(c, now) {
      forall i, j | 0 <= i < j < |c| && c[i].expires >= now ensures c[j].expires >= now {
        assert c[j] == c[n..][j - n];
      }
    } else {
      var e :| e in c[n..] && e.expires < now;
      var j :| 0 <= j < |c[n..]| && c[n..][j] == e;
      assert c[n + j] == e && c[n].expires >= now;
    }
  }

  /** Eviction is exact at every instant exactly when the cache is sorted by expiry. */
  lemma EvictAlwaysExactIffSorted<K, V>(c: Cache<K, V>)
    ensures (forall now :: Evict(c, now) == Fresh(c, now)) <==> Sorted(c)
  {
    if Sorted(c) {
      forall now ensures Evict(c, now) == Fresh(c, now) {
        EvictExactIff(c, now);
      }
    } else {
      var i, j :| 0 <= i < j < |c| && c[i].expires > c[j].expires;
      EvictExactIff(c, c[i].expires);
      assert Evict(c, c[i].expires) != Fresh(c, c[i].expires);
    }
  }

  lemma {:induction false} AssignAbsent<K, V>(c: Cache<K, V>, k: K, expires: real, v: V)
    requires !Has(c, k)
    ensures Assign(c, k, expires, v) == c + [Entry(k, expires, v)]
  {
    if c == [] {
    } else {
      AssignAbsent(c[1..], k, expires, v);
      assert c == [c[0]] + c[1..];
    }
  }

  lemma {:induction false} AssignPresent<K, V>(c: Cache<K, V>, k: K, expires: real, v: V) returns (p: nat)
    requires Has(c, k)
    ensures p < |c| && c[p].key == k && Assign(c, k, expires, v) == c[p := Entry(k, expires, v)]
  {
    if c[0].key == k {
      p := 0;
    } else {
      var q := AssignPresent(c[1..], k, expires, v);
      p := q + 1;
      assert c[p := Entry(k, expires, v)] == [c[0]] + c[1..][q := Entry(k, expires, v)];
    }
  }

  /**
   Storing with the latest expiry yet keeps the cache sorted if and only if the key is new
   or nothing behind it expires earlier than it now does.
   */
  lemma AssignSortedIff<K, V>(c: Cache<K, V>, k: K, expires: real, v: V)
    requires Unique(c) && Sorted(c) && forall e :: e in c ==> e.expires <= expires
    ensures Sorted(Assign(c, k, expires, v))
       <==> forall i, j :: 0 <= i < j < |c| && c[i].key == k ==> c[j].expires == expires
  {
    var d := Assign(c, k, expires, v);
    if !Has(c, k) {
      AssignAbsent(c, k, expires, v);
      assert forall i :: 0 <= i < |c| ==> c[i] in c;
    } else {
      var p := AssignPresent(c, k, expires, v);
      if Sorted(d) {
        forall i, j | 0 <= i < j < |c| && c[i].key == k ensures c[j].expires == expires {
          assert i == p && d[j] == c[j] && c[j] in c;
          assert d[p].expires <= d[j].expires;
        }
      } else {
        var i, j :| 0 <= i < j < |d| && d[i].expires > d[j].expires;
        assert c[i] in c && c[j] in c && c[i].expires <= c[j].expires;
        assert i == p;
      }
    }
  }

  lemma {:induction false} LookupAssign<K, V>(c: Cache<K, V>, k: K, expires: real, v: V, q: K)
    ensures Lookup(Assign(c, k, expires, v), q)
         == if q == k then Some(Entry(k, expires, v)) else Lookup(c, q)
  {
    if c == [] {
    } else {
      LookupAssign(c[1..], k, expires, v, q);
    }
  }

  lemma {:induction false} LookupDelete<K, V>(c: Cache<K, V>, k: K, q: K)
    requires Unique(c)
    ensures Lookup(Delete(c, k), q) == if q == k then None else Lookup(c, q)
  {
    if c == [] {
    } else {
      forall i, j | 0 <= i < j < |c[1..]| ensures c[1..][i].key != c[1..][j].key {
        assert c[i + 1].key != c[j + 1].key;
      }
      LookupDelete(c[1..], k, q);
    }
  }

  lemma {:induction false} LookupInUnique<K, V>(c: Cache<K, V>, i: nat)
    requires Unique(c) && i < |c|
    ensures Lookup(c, c[i].key) == Some(c[i])
  {
    if i == 0 {
    } else {
      assert c[0].key != c[i].key;
      forall a, b | 0 <= a < b < |c[1..]| ensures c[1..][a].key != c[1..][b].key {
        assert c[a + 1].key != c[b + 1].key;
      }
      LookupInUnique(c[1..], i - 1);
    }
  }

  /** What eviction leaves of an entry: it stays while some entry up to it is still good. */
  lemma SurvivesIff<K, V>(c: Cache<K, V>, now: real, j: nat)
    requires Unique(c) && j < |c|
    ensures Has(Evict(c, now), c[j].key) <==> exists i :: 0 <= i <= j && c[i].expires >= now
    ensures Has(Evict(c, now), c[j].key) ==> Lookup(Evict(c, now), c[j].key) == Some(c[j])
  {
    var n := EvictIsSuffix(c, now);
    var d := c[n..];
    assert Unique(d);
    if n <= j {
      assert d[j - n] == c[j] && c[n].expires >= now;
      LookupInUnique(d, j - n);
    }
  }

  // Deadlines: what an entry must not be found after.

  /** From now on nothing is found later than it is due. */
  ghost predicate FoundTimely<K(!new), V>(c: Cache<K, V>, clock: real, due: Entry<K, V> -> real) {
    forall k, now :: now >= clock && Has(Evict(c, now), k) ==> now <= due(Lookup(Evict(c, now), k).value)
  }

  lemma FoundTimelyIff<K(!new), V>(c: Cache<K, V>, clock: real, due: Entry<K, V> -> real)
    requires Unique(c)
    ensures FoundTimely(c, clock, due) <==> Timely(c, clock, due)
  {
    if Timely(c, clock, due) {
      forall k, now | now >= clock && Has(Evict(c, now), k) ensures now <= due(Lookup(Evict(c, now), k).value) {
        EvictKeeps(c, now);
        var j :| 0 <= j < |c| && c[j] == Lookup(Evict(c, now), k).value;
        SurvivesIff(c, now, j);
      }
    } else {
      var i, j :| 0 <= i <= j < |c| && c[i].expires >= clock && c[i].expires > due(c[j]);
      SurvivesIff(c, c[i].expires, j);
    }
  }

  lemma TimelyEvict<K, V>(c: Cache<K, V>, clock: real, now: real, due: Entry<K, V> -> real)
    requires Timely(c, clock, due) && clock <= now
    ensures Timely(Evict(c, now), now, due)
  {
    var n := EvictIsSuffix(c, now);
  }

  lemma TimelyDelete<K, V>(c: Cache<K, V>, clock: real, k: K, due: Entry<K, V> -> real)
    requires Timely(c, clock, due)
    ensures Timely(Delete(c, k), clock, due)
  {
    var p := DeleteSplits(c, k);
  }

  /** What has expired is never due. */
  lemma ExpiredIsTimely<K, V>(c: Cache<K, V>, clock: real, due: Entry<K, V> -> real)
    requires forall e :: e in c ==> e.expires < clock
    ensures Timely(c, clock, due)
  {
    assert forall i :: 0 <= i < |c| ==> c[i] in c;
  }

  lemma TimelyAppendIff<K, V>(c: Cache<K, V>, added: Cache<K, V>, clock: real, at: real, expires: real,
                              due: Entry<K, V> -> real)
    requires Timely(c, clock, due) && clock <= at <= expires
    requires forall e :: e in c ==> e.expires <= expires
    requires forall e :: e in added ==> e.expires == expires
    ensures Timely(c + added, at, due) <==> forall e :: e in added ==> expires <= due(e)
  {
    var d := c + added;
    assert forall i :: 0 <= i < |c| ==> c[i] in c;
    if Timely(d, at, due) {
      forall e | e in added ensures expires <= due(e) {
        var i :| 0 <= i < |added| && added[i] == e;
        assert d[|c| + i] == e;
      }
    }
  }

  lemma TimelyRenewIff<K, V>(c: Cache<K, V>, p: nat, e: Entry<K, V>, clock: real, at: real,
                             due: Entry<K, V> -> real)
    requires Timely(c, clock, due) && p < |c| && clock <= at <= e.expires
    requires forall x :: x in c ==> x.expires <= e.expires
    ensures Timely(c[p := e], at, due)
       <==> e.expires <= due(e) && forall j :: p < j < |c| ==> e.expires <= due(c[j])
  {
    var d := c[p := e];
    assert forall i :: 0 <= i < |c| ==> c[i] in c;
    if Timely(d, at, due) {
      assert d[p].expires <= due(d[p]);
      forall j | p < j < |c| ensures e.expires <= due(c[j]) {
        assert d[p].expires <= due(d[j]);
      }
    }
  }

  /**
   A store at `at` with the latest expiry keeps all deadlines if and only if it expires in
   time for itself and, where the key is held, for everything behind it.
   */
  lemma TimelyAssignIff<K, V>(c: Cache<K, V>, k: K, expires: real, v: V, clock: real, at: real,
                              due: Entry<K, V> -> real)
    requires Unique(c) && Timely(c, clock, due) && clock <= at <= expires
    requires forall e :: e in c ==> e.expires <= expires
    ensures Timely(Assign(c, k, expires, v), at, due)
       <==> && expires <= due(Entry(k, expires, v))
            && forall i, j :: 0 <= i < j < |c| && c[i].key == k ==> expires <= due(c[j])
  {
    var e := Entry(k, expires, v);
    assert forall i :: 0 <= i < |c| ==> c[i] in c;
    if !Has(c, k) {
      AssignAbsent(c, k, expires, v);
      TimelyAppendIff(c, [e], clock, at, expires, due);
    } else {
      var p := AssignPresent(c, k, expires, v);
      TimelyRenewIff(c, p, e, clock, at, due);
      assert forall i :: 0 <= i < |c| && c[i].key == k ==> i == p;
    }
  }

  /** The deadline that is the expiry itself. */
  function Expiry<K, V>(): Entry<K, V> -> real {
    (e: Entry<K, V>) => e.expires
  }

  lemma OrderedIffTimely<K, V>(c: Cache<K, V>, clock: real)
    ensures OrderedFrom(c, clock) <==> Timely(c, clock, Expiry())
  {
    if Timely(c, clock, Expiry()) {
      forall i, j | 0 <= i < j < |c| && c[i].expires >= clock ensures c[i].expires <= c[j].expires {
        assert c[i].expires <= Expiry()(c[j]);
      }
    }
  }

  lemma AssignUnique<K, V>(c: Cache<K, V>, k: K, expires: real, v: V)
    requires Unique(c)
    ensures Unique(Assign(c, k, expires, v))
  {
    if !Has(c, k) {
      AssignAbsent(c, k, expires, v);
      assert forall i :: 0 <= i < |c| ==> c[i] in c;
    } else {
      var p := AssignPresent(c, k, expires, v);
    }
  }

  lemma {:induction false} DeleteAbsent<K, V>(c: Cache<K, V>, k: K)
    requires !Has(c, k)
    ensures Delete(c, k) == c
  {
    if c == [] {
    } else {
      DeleteAbsent(c[1..], k);
      assert c == [c[0]] + c[1..];
    }
  }

  lemma WithoutOne<T>(c: seq<T>, q: nat)
    requires q + 1 < |c|
    ensures c[..q + 1] + c[q + 2..] == [c[0]] + (c[1..][..q] + c[1..][q + 1..])
  {
  }

  lemma {:induction false} DeletePresent<K, V>(c: Cache<K, V>, k: K) returns (p: nat)
    requires Has(c, k)
    ensures p < |c| && c[p].key == k && Delete(c, k) == c[..p] + c[p + 1..]
  {
    if c[0].key == k {
      p := 0;
      assert c[..0] + c[1..] == c[1..];
    } else {
      var q := DeletePresent(c[1..], k);
      p := q + 1;
      WithoutOne(c, q);
    }
  }

  lemma DeleteSplits<K, V>(c: Cache<K, V>, k: K) returns (p: nat)
    ensures p <= |c|
    ensures if p == |c| then Delete(c, k) == c && !Has(c, k)
            else c[p].key == k && Delete(c, k) == c[..p] + c[p + 1..]
  {
    if Has(c, k) {
      p := DeletePresent(c, k);
    } else {
      p := |c|;
      DeleteAbsent(c, k);
    }
  }

  /** Removing a key keeps the order, and keys stay unique. */
  lemma DeleteKeeps<K, V>(c: Cache<K, V>, k: K)
    requires Unique(c)
    ensures Unique(Delete(c, k)) && (Sorted(c) ==> Sorted(Delete(c, k)))
    ensures forall e :: e in Delete(c, k) ==> e in c
  {
    var p := DeleteSplits(c, k);
  }

  lemma EvictKeeps<K, V>(c: Cache<K, V>, now: real)
    ensures Unique(c) ==> Unique(Evict(c, now))
    ensures Sorted(c) ==> Sorted(Evict(c, now))
    ensures forall e :: e in Evict(c, now) ==> e in c
    ensures forall e :: e in c && e !in Evict(c, now) ==> e.expires < now
  {
    var n := EvictIsSuffix(c, now);
    forall e | e in c ensures e in c[n..] || e.expires < now {
      var i :| 0 <= i < |c| && c[i] == e;
      if i >= n { assert c[n..][i - n] == e; }
    }
  }

  /** The dictionary object the caches hold. */
  class OrderedDict<K(==), V> {
    var items: Cache<K, V>

    constructor ()
      ensures items == []
    {
      items := [];
    }

    method Set(k: K, expires: real, v: V)
      modifies this
      ensures items == Assign(old(items), k, expires, v)
    {
      items := Assign(items, k, expires, v);
    }

    method Del(k: K)
      modifies this
      ensures items == Delete(old(items), k)
    {
      items := Delete(items, k);
    }

    /** `__clear_cache__`: delete the oldest item while it has expired. */
    method ClearCache(now: real)
      modifies this
      ensures items == Evict(old(items), now)
      ensures Sorted(old(items)) ==> items == Fresh(old(items), now)
    {
      while items != [] && items[0].expires < now
        invariant Evict(items, now) == Evict(old(items), now)
        decreases |items|
      {
        items := items[1..];
      }
      EvictExactIff(old(items), now);
    }
  }
}
