/** How a call's arguments become a cache key. */
module CacheKeys {
  datatype Value =
    | Int(n: int)
    | Str(s: string)
    | List(items: seq<Value>)
    | Dict(entries: map<string, Value>)

  /** A hashable key. */
  datatype Key = KeyInt(n: int) | KeyStr(s: string) | Tuple(items: seq<Key>)

  /** Python's order on strings: by the first difference, a prefix first. */
  predicate Leq(a: string, b: string)
    decreases |a|
  {
    a == "" || (b != "" && (a[0] < b[0] || (a[0] == b[0] && Leq(a[1..], b[1..]))))
  }

  lemma {:induction false} LeqTotal(a: string, b: string)
    ensures Leq(a, b) || Leq(b, a)
    decreases |a|
  {
    if a == "" {
    } else if b != "" {
      LeqTotal(a[1..], b[1..]);
    }
  }

  lemma {:induction false} LeqTransitive(a: string, b: string, c: string)
    requires Leq(a, b) && Leq(b, c)
    ensures Leq(a, c)
    decreases |a|
  {
    if a == "" {
    } else if a[0] == b[0] && b[0] == c[0] {
      LeqTransitive(a[1..], b[1..], c[1..]);
    }
  }

  lemma {:induction false} LeqAntisymmetric(a: string, b: string)
    requires Leq(a, b) && Leq(b, a)
    ensures a == b
    decreases |a|
  {
    if a == "" {
    } else {
      LeqAntisymmetric(a[1..], b[1..]);
      assert a == [a[0]] + a[1..] && b == [b[0]] + b[1..];
    }
  }

  ghost predicate Least(k: string, keys: set<string>) {
    k in keys && forall q :: q in keys ==> Leq(k, q)
  }

  lemma {:induction false} LeastExists(keys: set<string>)
    requires keys != {}
    ensures exists k :: Least(k, keys)
    decreases |keys|
  {
    var k :| k in keys;
    var rest := keys - {k};
    LeqTotal(k, k);
    if rest == {} {
      assert keys == {k} + rest;
      assert Least(k, keys);
    } else {
      LeastExists(rest);
      var m :| Least(m, rest);
      LeqTotal(k, m);
      if Leq(m, k) {
        forall q | q in keys ensures Leq(m, q) {
          assert q == k || q in rest;
        }
        assert Least(m, keys);
      } else {
        forall q | q in keys ensures Leq(k, q) {
          if q in rest { LeqTransitive(k, m, q); }
        }
        assert Least(k, keys);
      }
    }
  }

  /** Python's `sorted(d.keys())`. */
  ghost function SortedKeys(keys: set<string>): seq<string>
    decreases |keys|
  {
    if keys == {} then []
    else
      LeastExists(keys);
      var m :| Least(m, keys);
      [m] + SortedKeys(keys - {m})
  }

  ghost predicate Ascending(ks: seq<string>) {
    forall i, j :: 0 <= i < j < |ks| ==> ks[i] != ks[j] && Leq(ks[i], ks[j])
  }

  lemma LeastBefore(m: string, keys: set<string>, rest: seq<string>)
    requires Least(m, keys) && Ascending(rest) && forall k :: k in rest <==> k in keys - {m}
    ensures Ascending([m] + rest) && forall k :: k in [m] + rest <==> k in keys
  {
    assert forall i :: 0 <= i < |rest| ==> rest[i] in rest;
  }

  lemma {:induction false} SortedKeysList(keys: set<string>)
    ensures forall k :: k in SortedKeys(keys) <==> k in keys
    ensures Ascending(SortedKeys(keys))
    decreases |keys|
  {
    if keys == {} {
    } else {
      LeastExists(keys);
      var m := SortedKeys(keys)[0];
      assert Least(m, keys) && SortedKeys(keys) == [m] + SortedKeys(keys - {m});
      SortedKeysList(keys - {m});
      LeastBefore(m, keys, SortedKeys(keys - {m}));
    }
  }

  lemma LeastIsFirst(ks: seq<string>, keys: set<string>, m: string)
    requires Ascending(ks) && ks != [] && Least(m, keys) && forall k :: k in ks <==> k in keys
    ensures ks[0] == m
  {
    assert ks[0] in ks && m in ks;
    var i :| 0 <= i < |ks| && ks[i] == m;
    if i > 0 { LeqAntisymmetric(ks[0], ks[i]); }
  }

  lemma AscendingRest(ks: seq<string>, keys: set<string>)
    requires Ascending(ks) && ks != [] && forall k :: k in ks <==> k in keys
    ensures Ascending(ks[1..]) && forall k :: k in ks[1..] <==> k in keys - {ks[0]}
  {
    var rest := ks[1..];
    assert forall i :: 0 <= i < |rest| ==> rest[i] == ks[i + 1];
    forall k | k in rest ensures k in keys && k != ks[0] {
      var j :| 0 <= j < |rest| && rest[j] == k;
      assert ks[j + 1] in ks;
    }
    forall k | k in keys && k != ks[0] ensures k in rest {
      var j :| 0 <= j < |ks| && ks[j] == k;
      assert rest[j - 1] == k;
    }
  }

  /** There is only one ascending list of a set of keys, whatever order they were inserted in. */
  lemma {:induction false} AscendingIsSorted(ks: seq<string>, keys: set<string>)
    requires Ascending(ks) && forall k :: k in ks <==> k in keys
    ensures ks == SortedKeys(keys)
    decreases |ks|
  {
    if ks == [] {
      assert keys == {};
    } else {
      assert ks[0] in ks;
      LeastExists(keys);
      var m := SortedKeys(keys)[0];
      assert Least(m, keys);
      LeastIsFirst(ks, keys, m);
      AscendingRest(ks, keys);
      AscendingIsSorted(ks[1..], keys - {m});
    }
  }

  // Conversion.

  /** `_convert_item`: strings and numbers stay, lists and dictionaries become tuples. */
  ghost function Convert(v: Value): Key
    decreases v
  {
    match v
    case Int(n) => KeyInt(n)
    case Str(s) => KeyStr(s)
    case List(items) => Tuple(ConvertAll(items))
    case Dict(entries) =>
      SortedKeysList(entries.Keys);
      var ks := SortedKeys(entries.Keys);
      Tuple(seq(|ks|, i requires 0 <= i < |ks| =>
        assert ks[i] in ks; Tuple([KeyStr(ks[i]), Convert(entries[ks[i]])])))
  }

  ghost function ConvertAll(items: seq<Value>): (r: seq<Key>)
    ensures |r| == |items|
    decreases items
  {
    if items == [] then [] else [Convert(items[0])] + ConvertAll(items[1..])
  }

  /** `_cache_stream` of a dictionary: its items in key order, values converted. */
  ghost function CacheStream(entries: map<string, Value>): Key {
    Convert(Dict(entries))
  }

  /**
   Nowhere does a list stand where the other has a dictionary. Conversion forgets which of the
   two a tuple was, and nothing else.
   */
  ghost predicate Comparable(v: Value, w: Value)
    decreases v
  {
    match (v, w)
    case (List(a), List(b)) => forall i :: 0 <= i < |a| && i < |b| ==> Comparable(a[i], b[i])
    case (Dict(a), Dict(b)) => forall k :: k in a && k in b ==> Comparable(a[k], b[k])
    case (List(_), Dict(_)) => false
    case (Dict(_), List(_)) => false
    case _ => true
  }

  lemma {:induction false} ConvertAllAt(items: seq<Value>, i: nat)
    requires i < |items|
    ensures ConvertAll(items)[i] == Convert(items[i])
    decreases items
  {
    if i == 0 {
    } else {
      ConvertAllAt(items[1..], i - 1);
    }
  }

  lemma StreamLength(a: map<string, Value>)
    ensures CacheStream(a).Tuple? && |CacheStream(a).items| == |SortedKeys(a.Keys)|
  {
    SortedKeysList(a.Keys);
  }

  lemma StreamAt(a: map<string, Value>, i: nat)
    requires i < |SortedKeys(a.Keys)|
    ensures var k := SortedKeys(a.Keys)[i];
      && k in a && CacheStream(a).Tuple? && |CacheStream(a).items| == |SortedKeys(a.Keys)|
      && CacheStream(a).items[i] == Tuple([KeyStr(k), Convert(a[k])])
  {
    SortedKeysList(a.Keys);
    assert SortedKeys(a.Keys)[i] in SortedKeys(a.Keys);
  }

  lemma PairsEqual(k: string, x: Key, l: string, y: Key)
    requires Tuple([KeyStr(k), x]) == Tuple([KeyStr(l), y])
    ensures k == l && x == y
  {
    var p, q := [KeyStr(k), x], [KeyStr(l), y];
    assert p == q && p[0] == q[0] && p[1] == q[1];
  }

  lemma SamePart(a: map<string, Value>, b: map<string, Value>, i: nat)
    requires CacheStream(a) == CacheStream(b) && i < |SortedKeys(a.Keys)|
    ensures i < |SortedKeys(b.Keys)| && SortedKeys(a.Keys)[i] == SortedKeys(b.Keys)[i]
    ensures var k := SortedKeys(a.Keys)[i]; k in a && k in b && Convert(a[k]) == Convert(b[k])
  {
    StreamLength(b);
    StreamAt(a, i);
    StreamAt(b, i);
    var k, l := SortedKeys(a.Keys)[i], SortedKeys(b.Keys)[i];
    PairsEqual(k, Convert(a[k]), l, Convert(b[l]));
  }

  /** Equal streams have equal keys, with equal converted values. */
  lemma StreamParts(a: map<string, Value>, b: map<string, Value>)
    requires CacheStream(a) == CacheStream(b)
    ensures a.Keys == b.Keys && forall k :: k in a ==> Convert(a[k]) == Convert(b[k])
  {
    StreamsInclude(a, b);
    StreamsInclude(b, a);
  }

  lemma StreamsInclude(a: map<string, Value>, b: map<string, Value>)
    requires CacheStream(a) == CacheStream(b)
    ensures forall k :: k in a ==> k in b && Convert(a[k]) == Convert(b[k])
  {
    var ks := SortedKeys(a.Keys);
    SortedKeysList(a.Keys);
    forall k | k in a ensures k in b && Convert(a[k]) == Convert(b[k]) {
      assert k in ks;
      var i :| 0 <= i < |ks| && ks[i] == k;
      SamePart(a, b, i);
    }
  }

  /** Values of any shape that convert alike are equal if and only if they are comparable. */
  lemma {:induction false} ConvertInjective(v: Value, w: Value)
    ensures v == w <==> Convert(v) == Convert(w) && Comparable(v, w)
    decreases v
  {
    match (v, w)
    case (List(a), List(b)) =>
      forall i | 0 <= i < |a| && i < |b| ensures a[i] == b[i] <==> Convert(a[i]) == Convert(b[i]) && Comparable(a[i], b[i]) {
        ConvertInjective(a[i], b[i]);
      }
      if Convert(v) == Convert(w) {
        ListParts(a, b);
      }
    case (Dict(a), Dict(b)) =>
      forall k | k in a && k in b ensures a[k] == b[k] <==> Convert(a[k]) == Convert(b[k]) && Comparable(a[k], b[k]) {
        ConvertInjective(a[k], b[k]);
      }
      if Convert(v) == Convert(w) {
        StreamParts(a, b);
        assert Comparable(v, w) ==> a == b;
      }
    case _ =>
  }

  lemma ListParts(a: seq<Value>, b: seq<Value>)
    requires ConvertAll(a) == ConvertAll(b)
    ensures |a| == |b| && forall i :: 0 <= i < |a| ==> Convert(a[i]) == Convert(b[i])
  {
    forall i | 0 <= i < |a| ensures |a| == |b| && Convert(a[i]) == Convert(b[i]) {
      ConvertAllAt(a, i);
      ConvertAllAt(b, i);
    }
    assert |a| == |ConvertAll(a)|;
  }

  /** Others can convert alike: the empty list and the empty dictionary share a key. */
  lemma ShapesConflated()
    ensures Convert(List([])) == Convert(Dict(map[]))
  {
    assert CacheStream(map[]) == Tuple([]);
  }
}
