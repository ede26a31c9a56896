/** Which calls of a function share a cache key. */
module CallKeys {
  import opened Prelude
  import opened CacheKeys

  /**
   A signature of positional-or-keyword parameters, of which the last ones have defaults, and
   whether `*args` and `**kwargs` take what is left over.
   */
  datatype Signature = Signature(params: seq<string>, defaults: seq<Value>, varargs: bool, varkw: bool)

  ghost predicate ValidSignature(f: Signature) {
    && |f.defaults| <= |f.params|
    && forall i, j :: 0 <= i < j < |f.params| ==> f.params[i] != f.params[j]
  }

  /** Python's `dict(zip(names, values))`; the shorter of the two decides. */
  function Zip(names: seq<string>, values: seq<Value>): map<string, Value> {
    if names == [] || values == [] then map[]
    else map[names[0] := values[0]] + Zip(names[1..], values[1..])
  }

  function Defaults(f: Signature): map<string, Value>
    requires |f.defaults| <= |f.params|
  {
    Zip(f.params[|f.params| - |f.defaults|..], f.defaults)
  }

  /** What the wrapper makes its key from. */
  function Merged(f: Signature, args: seq<Value>, kwargs: map<string, Value>): map<string, Value>
    requires |f.defaults| <= |f.params|
  {
    Defaults(f) + Zip(f.params, args) + kwargs
  }

  ghost function CallKey(f: Signature, args: seq<Value>, kwargs: map<string, Value>): Key
    requires |f.defaults| <= |f.params|
  {
    CacheStream(Merged(f, args, kwargs))
  }

  /** A parameter's value in a call: by position, by keyword, or its default. */
  function Bound(f: Signature, args: seq<Value>, kwargs: map<string, Value>, i: nat): Option<Value>
    requires i < |f.params| && |f.defaults| <= |f.params|
  {
    if i < |args| then Some(args[i])
    else if f.params[i] in kwargs then Some(kwargs[f.params[i]])
    else if i >= |f.params| - |f.defaults| then Some(f.defaults[i - (|f.params| - |f.defaults|)])
    else None
  }

  /** The defaults belong to the last parameters, in their order. */
  lemma DefaultsAreLast(f: Signature, front: seq<string>, last: seq<string>, args: seq<Value>,
                        kwargs: map<string, Value>, j: nat)
    requires f.params == front + last && |last| == |f.defaults| && j < |last|
    requires |args| <= |front| + j && last[j] !in kwargs
    ensures Bound(f, args, kwargs, |front| + j) == Some(f.defaults[j])
  {
  }

  /** The keywords that `**kwargs` takes. */
  function Extra(f: Signature, kwargs: map<string, Value>): map<string, Value> {
    map k | k in kwargs && k !in f.params :: kwargs[k]
  }

  /** The arguments that `*args` takes. */
  function Surplus(f: Signature, args: seq<Value>): seq<Value> {
    if |args| <= |f.params| then [] else args[|f.params|..]
  }

  /** The call is accepted by Python: no argument too many, none given twice, none missing. */
  ghost predicate ValidCall(f: Signature, args: seq<Value>, kwargs: map<string, Value>)
    requires |f.defaults| <= |f.params|
  {
    && (f.varargs || Surplus(f, args) == [])
    && (f.varkw || Extra(f, kwargs) == map[])
    && (forall i :: 0 <= i < |f.params| && i < |args| ==> f.params[i] !in kwargs)
    && (forall i :: 0 <= i < |f.params| ==> Bound(f, args, kwargs, i).Some?)
  }

  lemma DistinctTail(names: seq<string>)
    requires names != [] && forall i, j :: 0 <= i < j < |names| ==> names[i] != names[j]
    ensures forall i, j :: 0 <= i < j < |names[1..]| ==> names[1..][i] != names[1..][j]
    ensures names[0] !in names[1..]
  {
    forall i, j | 0 <= i < j < |names[1..]| ensures names[1..][i] != names[1..][j] {
      assert names[i + 1] != names[j + 1];
    }
  }

  lemma {:induction false} ZipKeys(names: seq<string>, values: seq<Value>)
    ensures forall k :: k in Zip(names, values) ==> k in names
    decreases |names|
  {
    if names == [] {
    } else if values != [] {
      ZipKeys(names[1..], values[1..]);
    }
  }

  lemma {:induction false} ZipAt(names: seq<string>, values: seq<Value>, i: nat)
    requires i < |names| && forall i, j :: 0 <= i < j < |names| ==> names[i] != names[j]
    ensures names[i] in Zip(names, values) <==> i < |values|
    ensures i < |values| ==> Zip(names, values)[names[i]] == values[i]
    decreases |names|
  {
    if values == [] {
    } else {
      DistinctTail(names);
      ZipKeys(names[1..], values[1..]);
      if i > 0 {
        ZipAt(names[1..], values[1..], i - 1);
      }
    }
  }

  lemma TailAt(names: seq<string>, d: nat, i: nat)
    requires d <= |names| && i < |names| && forall i, j :: 0 <= i < j < |names| ==> names[i] != names[j]
    ensures names[i] in names[d..] <==> i >= d
  {
    if i >= d { assert names[d..][i - d] == names[i]; }
  }

  lemma DefaultAt(f: Signature, i: nat)
    requires ValidSignature(f) && i < |f.params|
    ensures var d := |f.params| - |f.defaults|;
      && (f.params[i] in Defaults(f) <==> i >= d)
      && (i >= d ==> Defaults(f)[f.params[i]] == f.defaults[i - d])
  {
    var d := |f.params| - |f.defaults|;
    var tail := f.params[d..];
    ZipKeys(tail, f.defaults);
    TailAt(f.params, d, i);
    if i >= d {
      assert forall a :: 0 <= a < |tail| ==> tail[a] == f.params[d + a];
      ZipAt(tail, f.defaults, i - d);
    }
  }

  /** What the wrapper takes for a parameter, accepted call or not: a keyword goes before a position. */
  function Taken(f: Signature, args: seq<Value>, kwargs: map<string, Value>, i: nat): Option<Value>
    requires i < |f.params| && |f.defaults| <= |f.params|
  {
    if f.params[i] in kwargs then Some(kwargs[f.params[i]])
    else if i < |args| then Some(args[i])
    else if i >= |f.params| - |f.defaults| then Some(f.defaults[i - (|f.params| - |f.defaults|)])
    else None
  }

  lemma TakenIsBound(f: Signature, args: seq<Value>, kwargs: map<string, Value>, i: nat)
    requires ValidSignature(f) && ValidCall(f, args, kwargs) && i < |f.params|
    ensures Taken(f, args, kwargs, i) == Bound(f, args, kwargs, i)
  {
    assert i < |args| ==> f.params[i] !in kwargs;
  }

  /** The merged dictionary holds what is taken for each parameter. */
  lemma MergedAt(f: Signature, args: seq<Value>, kwargs: map<string, Value>, i: nat)
    requires ValidSignature(f) && i < |f.params|
    ensures var m, k := Merged(f, args, kwargs), f.params[i];
      Taken(f, args, kwargs, i) == if k in m then Some(m[k]) else None
  {
    ZipAt(f.params, args, i);
    DefaultAt(f, i);
  }

  /** Beyond the parameters it holds the keywords that are left over, whatever the positions. */
  lemma MergedExtra(f: Signature, args: seq<Value>, kwargs: map<string, Value>)
    requires ValidSignature(f)
    ensures Extra(f, Merged(f, args, kwargs)) == Extra(f, kwargs)
  {
    ZipKeys(f.params, args);
    ZipKeys(f.params[|f.params| - |f.defaults|..], f.defaults);
  }

  lemma KeysSplit(f: Signature, m: map<string, Value>, extra: map<string, Value>)
    requires Extra(f, m) == extra && forall i :: 0 <= i < |f.params| ==> f.params[i] in m
    ensures forall k :: k in m <==> k in f.params || k in extra
    ensures forall k :: k in extra ==> k !in f.params && k in m && m[k] == extra[k]
  {
    forall k ensures k in extra <==> k in m && k !in f.params {
      assert k in extra <==> k in Extra(f, m);
    }
    forall k | k in f.params ensures k in m {
      var i :| 0 <= i < |f.params| && f.params[i] == k;
    }
  }

  /** A dictionary is the binding of all names in a call. */
  ghost predicate IsBinding(f: Signature, args: seq<Value>, kwargs: map<string, Value>, m: map<string, Value>)
    requires |f.defaults| <= |f.params|
  {
    && (forall k :: k in m <==> k in f.params || k in Extra(f, kwargs))
    && (forall i :: 0 <= i < |f.params| ==> f.params[i] in m && Some(m[f.params[i]]) == Bound(f, args, kwargs, i))
    && (forall k :: k in Extra(f, kwargs) ==> m[k] == kwargs[k])
  }

  /** For a call that Python accepts, the merged dictionary is it. */
  lemma MergedIsBinding(f: Signature, args: seq<Value>, kwargs: map<string, Value>)
    requires ValidSignature(f) && ValidCall(f, args, kwargs)
    ensures IsBinding(f, args, kwargs, Merged(f, args, kwargs))
  {
    forall i | 0 <= i < |f.params|
      ensures f.params[i] in Merged(f, args, kwargs)
      ensures Some(Merged(f, args, kwargs)[f.params[i]]) == Bound(f, args, kwargs, i)
    {
      MergedAt(f, args, kwargs, i);
      TakenIsBound(f, args, kwargs, i);
    }
    MergedExtra(f, args, kwargs);
    KeysSplit(f, Merged(f, args, kwargs), Extra(f, kwargs));
  }

  /** Two calls of one function bind every name alike: parameters and what `**kwargs` takes. */
  ghost predicate SameNames(f: Signature, args: seq<Value>, kwargs: map<string, Value>,
                            args': seq<Value>, kwargs': map<string, Value>)
    requires |f.defaults| <= |f.params|
  {
    && (forall i :: 0 <= i < |f.params| ==> Bound(f, args, kwargs, i) == Bound(f, args', kwargs', i))
    && Extra(f, kwargs) == Extra(f, kwargs')
  }

  /** And so does what `*args` takes. */
  ghost predicate SameBinding(f: Signature, args: seq<Value>, kwargs: map<string, Value>,
                              args': seq<Value>, kwargs': map<string, Value>)
    requires |f.defaults| <= |f.params|
  {
    SameNames(f, args, kwargs, args', kwargs') && Surplus(f, args) == Surplus(f, args')
  }

  /** What two calls bind to one name is comparable. */
  ghost predicate NamesComparable(f: Signature, args: seq<Value>, kwargs: map<string, Value>,
                                  args': seq<Value>, kwargs': map<string, Value>)
    requires |f.defaults| <= |f.params|
  {
    && (forall i :: 0 <= i < |f.params| && Bound(f, args, kwargs, i).Some? && Bound(f, args', kwargs', i).Some? ==>
         Comparable(Bound(f, args, kwargs, i).value, Bound(f, args', kwargs', i).value))
    && (forall k :: k in Extra(f, kwargs) && k in Extra(f, kwargs') ==> Comparable(kwargs[k], kwargs'[k]))
  }

  lemma SameNamesIff(f: Signature, args: seq<Value>, kwargs: map<string, Value>, m: map<string, Value>,
                     args': seq<Value>, kwargs': map<string, Value>, m': map<string, Value>)
    requires |f.defaults| <= |f.params| && IsBinding(f, args, kwargs, m) && IsBinding(f, args', kwargs', m')
    ensures SameNames(f, args, kwargs, args', kwargs') <==> m == m'
  {
    if SameNames(f, args, kwargs, args', kwargs') {
      forall k | k in m ensures k in m' && m[k] == m'[k] {
        if k in f.params {
          var i :| 0 <= i < |f.params| && f.params[i] == k;
          assert Bound(f, args, kwargs, i) == Bound(f, args', kwargs', i);
        } else {
          assert k in Extra(f, kwargs) && kwargs[k] == Extra(f, kwargs)[k] && kwargs'[k] == Extra(f, kwargs')[k];
        }
      }
      assert m.Keys == m'.Keys;
    } else if m == m' {
      ExtraOfBinding(f, args, kwargs, m);
      ExtraOfBinding(f, args', kwargs', m');
    }
  }

  lemma ExtraOfBinding(f: Signature, args: seq<Value>, kwargs: map<string, Value>, m: map<string, Value>)
    requires |f.defaults| <= |f.params| && IsBinding(f, args, kwargs, m)
    ensures Extra(f, m) == Extra(f, kwargs)
  {
    var extra := Extra(f, kwargs);
    forall k ensures k in Extra(f, m) <==> k in extra {
      assert k in m <==> k in f.params || k in extra;
    }
  }

  lemma NamesComparableIff(f: Signature, args: seq<Value>, kwargs: map<string, Value>, m: map<string, Value>,
                           args': seq<Value>, kwargs': map<string, Value>, m': map<string, Value>)
    requires |f.defaults| <= |f.params| && IsBinding(f, args, kwargs, m) && IsBinding(f, args', kwargs', m')
    ensures NamesComparable(f, args, kwargs, args', kwargs') <==> Comparable(Dict(m), Dict(m'))
  {
    if NamesComparable(f, args, kwargs, args', kwargs') {
      forall k | k in m && k in m' ensures Comparable(m[k], m'[k]) {
        if k in f.params {
          var i :| 0 <= i < |f.params| && f.params[i] == k;
          assert Some(m[k]) == Bound(f, args, kwargs, i) && Some(m'[k]) == Bound(f, args', kwargs', i);
        }
      }
    } else if k :| k in Extra(f, kwargs) && k in Extra(f, kwargs') && !Comparable(kwargs[k], kwargs'[k]) {
      assert !Comparable(m[k], m'[k]);
    } else {
      var i :| 0 <= i < |f.params| && Bound(f, args, kwargs, i).Some? && Bound(f, args', kwargs', i).Some?
               && !Comparable(Bound(f, args, kwargs, i).value, Bound(f, args', kwargs', i).value);
      assert !Comparable(m[f.params[i]], m'[f.params[i]]);
    }
  }

  /**
   Accepted calls share a key exactly if they bind every name to the same value, as long as no
   name has a list in one call where it has a dictionary in the other.
   */
  lemma KeysIdentifyNames(f: Signature, args: seq<Value>, kwargs: map<string, Value>,
                          args': seq<Value>, kwargs': map<string, Value>)
    requires ValidSignature(f) && ValidCall(f, args, kwargs) && ValidCall(f, args', kwargs')
    ensures SameNames(f, args, kwargs, args', kwargs')
       <==> CallKey(f, args, kwargs) == CallKey(f, args', kwargs') && NamesComparable(f, args, kwargs, args', kwargs')
  {
    var m, m' := Merged(f, args, kwargs), Merged(f, args', kwargs');
    MergedIsBinding(f, args, kwargs);
    MergedIsBinding(f, args', kwargs');
    SameNamesIff(f, args, kwargs, m, args', kwargs', m');
    NamesComparableIff(f, args, kwargs, m, args', kwargs', m');
    ConvertInjective(Dict(m), Dict(m'));
  }

  /**
   Accepted calls bind alike if and only if they share a key, `*args` takes the same in both,
   and nothing is a list in one where it is a dictionary in the other. Without `*args` the
   first part of that always holds.
   */
  lemma KeysIdentifyBindings(f: Signature, args: seq<Value>, kwargs: map<string, Value>,
                             args': seq<Value>, kwargs': map<string, Value>)
    requires ValidSignature(f) && ValidCall(f, args, kwargs) && ValidCall(f, args', kwargs')
    ensures SameBinding(f, args, kwargs, args', kwargs')
       <==> && CallKey(f, args, kwargs) == CallKey(f, args', kwargs')
            && (f.varargs ==> Surplus(f, args) == Surplus(f, args'))
            && NamesComparable(f, args, kwargs, args', kwargs')
  {
    KeysIdentifyNames(f, args, kwargs, args', kwargs');
  }

  /** However its arguments are passed, a binding has one key. */
  lemma SameBindingSameKey(f: Signature, args: seq<Value>, kwargs: map<string, Value>,
                           args': seq<Value>, kwargs': map<string, Value>)
    requires ValidSignature(f) && ValidCall(f, args, kwargs) && ValidCall(f, args', kwargs')
    requires SameBinding(f, args, kwargs, args', kwargs')
    ensures CallKey(f, args, kwargs) == CallKey(f, args', kwargs')
  {
    KeysIdentifyNames(f, args, kwargs, args', kwargs');
  }

  lemma {:induction false} ZipCut(names: seq<string>, values: seq<Value>)
    requires |values| > |names|
    ensures Zip(names, values) == Zip(names, values[..|names|])
    decreases |names|
  {
    if names == [] {
    } else {
      assert values[1..][..|names| - 1] == values[..|names|][1..];
      ZipCut(names[1..], values[1..]);
    }
  }

  /** What `*args` takes is not in the key: two accepted calls share one whatever it is. */
  lemma SurplusIgnored(f: Signature, args: seq<Value>, surplus: seq<Value>, kwargs: map<string, Value>)
    requires ValidSignature(f) && ValidCall(f, args, kwargs) && f.varargs && |args| == |f.params|
    ensures ValidCall(f, args + surplus, kwargs)
    ensures CallKey(f, args + surplus, kwargs) == CallKey(f, args, kwargs)
    ensures SameBinding(f, args + surplus, kwargs, args, kwargs) <==> surplus == []
  {
    if surplus != [] {
      ZipCut(f.params, args + surplus);
      assert (args + surplus)[..|args|] == args && (args + surplus)[|args|..] == surplus;
    }
    assert forall i :: 0 <= i < |f.params| ==> Bound(f, args + surplus, kwargs, i) == Bound(f, args, kwargs, i);
    assert surplus == [] ==> args + surplus == args;
  }

  // Calls that Python rejects.

  /** No unknown keyword, and every parameter is taken from somewhere. */
  ghost predicate Complete(f: Signature, args: seq<Value>, kwargs: map<string, Value>)
    requires |f.defaults| <= |f.params|
  {
    && (f.varkw || Extra(f, kwargs) == map[])
    && (forall i :: 0 <= i < |f.params| ==> Taken(f, args, kwargs, i).Some?)
  }

  /** Arguments beyond the parameters, or a parameter given both by position and by keyword. */
  ghost predicate Doubled(f: Signature, args: seq<Value>, kwargs: map<string, Value>) {
    (!f.varargs && |args| > |f.params|) || exists i :: 0 <= i < |args| && i < |f.params| && f.params[i] in kwargs
  }

  /** Complete calls are the accepted ones and those with something given twice or too much. */
  lemma AcceptedIff(f: Signature, args: seq<Value>, kwargs: map<string, Value>)
    requires ValidSignature(f)
    ensures ValidCall(f, args, kwargs) <==> Complete(f, args, kwargs) && !Doubled(f, args, kwargs)
  {
    if ValidCall(f, args, kwargs) {
      forall i | 0 <= i < |f.params| ensures Taken(f, args, kwargs, i).Some? {
        TakenIsBound(f, args, kwargs, i);
      }
    }
    if Complete(f, args, kwargs) && !Doubled(f, args, kwargs) {
      forall i | 0 <= i < |f.params| ensures Bound(f, args, kwargs, i).Some? {
        assert Taken(f, args, kwargs, i).Some?;
      }
    }
  }

  /** The merged dictionary says whether a call is complete. */
  lemma CompleteIff(f: Signature, args: seq<Value>, kwargs: map<string, Value>)
    requires ValidSignature(f)
    ensures var m := Merged(f, args, kwargs);
      Complete(f, args, kwargs) <==> (f.varkw || Extra(f, m) == map[]) && forall k :: k in f.params ==> k in m
  {
    MergedExtra(f, args, kwargs);
    forall i | 0 <= i < |f.params|
      ensures Taken(f, args, kwargs, i).Some? <==> f.params[i] in Merged(f, args, kwargs)
    {
      MergedAt(f, args, kwargs, i);
    }
    assert forall i :: 0 <= i < |f.params| ==> f.params[i] in f.params;
  }

  /** The accepted call that gives everything by keyword has the same merged dictionary. */
  lemma ByKeyword(f: Signature, m: map<string, Value>)
    requires ValidSignature(f) && (f.varkw || Extra(f, m) == map[]) && forall k :: k in f.params ==> k in m
    ensures ValidCall(f, [], m) && Merged(f, [], m) == m
  {
    assert forall i :: 0 <= i < |f.params| ==> f.params[i] in f.params;
    ZipKeys(f.params[|f.params| - |f.defaults|..], f.defaults);
  }

  lemma ByKeywordBinds(f: Signature, args: seq<Value>, kwargs: map<string, Value>)
    requires ValidSignature(f) && Complete(f, args, kwargs)
    ensures var m := Merged(f, args, kwargs);
      && (forall i :: 0 <= i < |f.params| ==> Bound(f, [], m, i) == Taken(f, args, kwargs, i))
      && Extra(f, m) == Extra(f, kwargs)
  {
    MergedExtra(f, args, kwargs);
    forall i | 0 <= i < |f.params|
      ensures Bound(f, [], Merged(f, args, kwargs), i) == Taken(f, args, kwargs, i)
    {
      MergedAt(f, args, kwargs, i);
      assert Taken(f, args, kwargs, i).Some?;
    }
  }

  /** An accepted call has this key. */
  ghost predicate HasKey(f: Signature, args: seq<Value>, kwargs: map<string, Value>, key: Key)
    requires |f.defaults| <= |f.params|
  {
    ValidCall(f, args, kwargs) && CallKey(f, args, kwargs) == key
  }

  /**
   Any call, accepted or not, has the key of some accepted call if and only if it names no
   unknown keyword and every parameter has an argument or a default.
   */
  lemma SharesKeyIff(f: Signature, args: seq<Value>, kwargs: map<string, Value>)
    requires ValidSignature(f)
    ensures (exists args', kwargs' :: HasKey(f, args', kwargs', CallKey(f, args, kwargs))) <==> Complete(f, args, kwargs)
  {
    var m := Merged(f, args, kwargs);
    CompleteIff(f, args, kwargs);
    if Complete(f, args, kwargs) {
      ByKeyword(f, m);
      assert HasKey(f, [], m, CallKey(f, args, kwargs));
    }
    forall args', kwargs' | HasKey(f, args', kwargs', CallKey(f, args, kwargs)) ensures Complete(f, args, kwargs) {
      var m' := Merged(f, args', kwargs');
      StreamParts(m, m');
      AcceptedIff(f, args', kwargs');
      CompleteIff(f, args', kwargs');
      assert m.Keys == m'.Keys;
      assert Extra(f, m).Keys == Extra(f, m').Keys;
    }
  }

  /** An accepted call binds what another call is taken to give. */
  ghost predicate BindsTaken(f: Signature, args: seq<Value>, kwargs: map<string, Value>,
                             args': seq<Value>, kwargs': map<string, Value>)
    requires |f.defaults| <= |f.params|
  {
    && (forall i :: 0 <= i < |f.params| ==> Bound(f, args', kwargs', i) == Taken(f, args, kwargs, i))
    && Extra(f, kwargs') == Extra(f, kwargs)
  }

  /** What it binds and what the other is taken to give is comparable. */
  ghost predicate TakenComparable(f: Signature, args: seq<Value>, kwargs: map<string, Value>,
                                  args': seq<Value>, kwargs': map<string, Value>)
    requires |f.defaults| <= |f.params|
  {
    && (forall i :: 0 <= i < |f.params| && Taken(f, args, kwargs, i).Some? && Bound(f, args', kwargs', i).Some? ==>
         Comparable(Taken(f, args, kwargs, i).value, Bound(f, args', kwargs', i).value))
    && (forall k :: k in Extra(f, kwargs) && k in Extra(f, kwargs') ==> Comparable(kwargs[k], kwargs'[k]))
  }

  /**
   Which accepted calls those are: the ones that bind what is left when surplus positional
   arguments are dropped and a parameter given twice takes its keyword value; and those that
   have a list where that has a dictionary, or the other way round.
   */
  lemma SharedKeyMeans(f: Signature, args: seq<Value>, kwargs: map<string, Value>,
                       args': seq<Value>, kwargs': map<string, Value>)
    requires ValidSignature(f) && Complete(f, args, kwargs) && ValidCall(f, args', kwargs')
    ensures BindsTaken(f, args, kwargs, args', kwargs')
       <==> CallKey(f, args, kwargs) == CallKey(f, args', kwargs') && TakenComparable(f, args, kwargs, args', kwargs')
  {
    var m := Merged(f, args, kwargs);
    CompleteIff(f, args, kwargs);
    ByKeyword(f, m);
    ByKeywordBinds(f, args, kwargs);
    KeysIdentifyNames(f, [], m, args', kwargs');
    TakenComparableIff(f, args, kwargs, m, args', kwargs');
  }

  lemma TakenComparableIff(f: Signature, args: seq<Value>, kwargs: map<string, Value>, m: map<string, Value>,
                           args': seq<Value>, kwargs': map<string, Value>)
    requires |f.defaults| <= |f.params| && Extra(f, m) == Extra(f, kwargs)
    requires forall i :: 0 <= i < |f.params| ==> Bound(f, [], m, i) == Taken(f, args, kwargs, i)
    ensures NamesComparable(f, [], m, args', kwargs') <==> TakenComparable(f, args, kwargs, args', kwargs')
  {
    assert forall k :: k in Extra(f, m) ==> Extra(f, m)[k] == m[k] && Extra(f, kwargs)[k] == kwargs[k];
  }
}
