/**
 How old a value found in the local level of the store can be: exact conditions for one state
 and for whole runs, for any deadline, and runs that do not meet them.
 */
module StoreStaleness {
  import opened Prelude
  import opened ExpiringCache
  import opened StoreSteps

  type Deadline<!V> = Entry<string, Sample<V>> -> real

  /** TTL after its storing, which is the expiry of the entry. */
  function SinceStored<V>(ttl: real): Deadline<V> {
    (e: Entry<string, Sample<V>>) => e.value.storedAt + ttl
  }

  /** TTL and slack after the remote access that gave it. */
  function SinceHeld<V>(ttl: real, slack: real): Deadline<V> {
    (e: Entry<string, Sample<V>>) => e.value.heldAt + ttl + slack
  }

  /** No read of the key at `now` finds a value later than it is due. */
  ghost predicate ReadIsTimely<V>(s: State<V>, due: Deadline<V>, key: string, now: real) {
    Hit(s, key, now).Some? ==> now <= due(Lookup(Evict(s.local, now), key).value)
  }

  /** From now on no read finds a value later than it is due. */
  ghost predicate ReadsTimely<V(!new)>(s: State<V>, due: Deadline<V>) {
    forall key, now :: now >= s.clock ==> ReadIsTimely(s, due, key, now)
  }

  /**
   For any deadline: no later read finds a value later than it is due if and only if no entry
   still good expires after what is due for itself and for those behind it.
   */
  lemma ReadsTimelyIff<V(!new)>(ttl: real, s: State<V>, due: Deadline<V>)
    requires Inv(ttl, s)
    ensures ReadsTimely(s, due) <==> Timely(s.local, s.clock, due)
  {
    FoundTimelyIff(s.local, s.clock, due);
    if ReadsTimely(s, due) {
      forall k, now | now >= s.clock && Has(Evict(s.local, now), k)
        ensures now <= due(Lookup(Evict(s.local, now), k).value)
      {
        assert ReadIsTimely(s, due, k, now);
      }
    }
  }

  /**
   After any run: no later read finds a value longer than TTL after its storing if and only
   if behind an entry still good nothing expires earlier.
   */
  lemma ExpiryBoundedIff<V(!new)>(ttl: real, s: State<V>)
    requires Reachable(ttl, s)
    ensures (forall key, now :: now >= s.clock && Hit(s, key, now).Some? ==>
              now <= Hit(s, key, now).value.storedAt + ttl)
       <==> OrderedFrom(s.local, s.clock)
  {
    var due := SinceStored(ttl);
    ReachableInv(ttl, s);
    ReadsTimelyIff(ttl, s, due);
    StoredIsExpiry(ttl, s);
    assert forall key, now ::
      ReadIsTimely(s, due, key, now) <==> (Hit(s, key, now).Some? ==> now <= Hit(s, key, now).value.storedAt + ttl);
  }

  lemma StoredIsExpiry<V(!new)>(ttl: real, s: State<V>)
    requires Inv(ttl, s)
    ensures Timely(s.local, s.clock, SinceStored(ttl)) <==> OrderedFrom(s.local, s.clock)
  {
    forall j | 0 <= j < |s.local| ensures SinceStored(ttl)(s.local[j]) == s.local[j].expires {
      assert SampleOk(ttl, s, s.local[j]);
    }
  }

  /**
   After any run: no later read finds a value longer than TTL and slack after the remote access
   that gave it if and only if no entry still good expires later than that, for itself and for
   every entry behind it. With no slack this is the bound by TTL alone.
   */
  lemma AgeBoundedIff<V(!new)>(ttl: real, slack: real, s: State<V>)
    requires Reachable(ttl, s)
    ensures (forall key, now :: now >= s.clock && Hit(s, key, now).Some? ==>
              now <= Hit(s, key, now).value.heldAt + ttl + slack)
       <==> forall i, j :: 0 <= i <= j < |s.local| && s.local[i].expires >= s.clock ==>
              s.local[i].expires <= s.local[j].value.heldAt + ttl + slack
  {
    var due := SinceHeld(ttl, slack);
    ReachableInv(ttl, s);
    ReadsTimelyIff(ttl, s, due);
    assert forall key, now ::
      ReadIsTimely(s, due, key, now) <==> (Hit(s, key, now).Some? ==> now <= Hit(s, key, now).value.heldAt + ttl + slack);
  }

  /**
   The remote store held the value at t or later: what it held at an instant of its history it
   kept until the next one, and since the last.
   */
  ghost predicate HeldFrom<V(!new)>(s: State<V>, key: string, data: V, t: real) {
    exists i :: 0 <= i < |s.history| && key in s.history[i].1 && s.history[i].1[key] == data
                && (s.history[i].0 >= t || i + 1 == |s.history| || s.history[i + 1].0 > t)
  }

  /**
   After any run, for the value itself, wherever it came from: all that later reads find was in
   the remote store TTL and slack ago or later if and only if that is so, when an entry still
   good expires, of its own value and of every value behind it.
   */
  lemma HeldBoundedIff<V(!new)>(ttl: real, slack: real, s: State<V>)
    requires Reachable(ttl, s)
    ensures (forall key, now :: now >= s.clock && Hit(s, key, now).Some? ==>
              HeldFrom(s, key, Hit(s, key, now).value.data, now - ttl - slack))
       <==> forall i, j :: 0 <= i <= j < |s.local| && s.local[i].expires >= s.clock ==>
              HeldFrom(s, s.local[j].key, s.local[j].value.data, s.local[i].expires - ttl - slack)
  {
    ReachableInv(ttl, s);
    if forall i, j :: 0 <= i <= j < |s.local| && s.local[i].expires >= s.clock ==>
         HeldFrom(s, s.local[j].key, s.local[j].value.data, s.local[i].expires - ttl - slack)
    {
      forall key, now | now >= s.clock && Hit(s, key, now).Some?
        ensures HeldFrom(s, key, Hit(s, key, now).value.data, now - ttl - slack)
      {
        var i, j := HitBehind(s, key, now);
        HeldEarlier(s, key, s.local[j].value.data, s.local[i].expires - ttl - slack, now - ttl - slack);
      }
    } else {
      var i, j :| 0 <= i <= j < |s.local| && s.local[i].expires >= s.clock
                  && !HeldFrom(s, s.local[j].key, s.local[j].value.data, s.local[i].expires - ttl - slack);
      EntryIsHit(s, i, j);
    }
  }

  /** When an entry expires, a read still finds all those behind it. */
  lemma EntryIsHit<V>(s: State<V>, i: nat, j: nat)
    requires Unique(s.local) && i <= j < |s.local|
    ensures Hit(s, s.local[j].key, s.local[i].expires) == Some(s.local[j].value)
  {
    SurvivesIff(s.local, s.local[i].expires, j);
  }

  /** What a read finds is an entry, and some entry up to it is still good. */
  lemma HitBehind<V>(s: State<V>, key: string, now: real) returns (i: nat, j: nat)
    requires Unique(s.local) && Hit(s, key, now).Some?
    ensures i <= j < |s.local| && s.local[i].expires >= now
    ensures s.local[j].key == key && Hit(s, key, now) == Some(s.local[j].value)
  {
    EvictKeeps(s.local, now);
    var e := Lookup(Evict(s.local, now), key).value;
    j :| 0 <= j < |s.local| && s.local[j] == e;
    SurvivesIff(s.local, now, j);
    i :| 0 <= i <= j && s.local[i].expires >= now;
  }

  lemma HeldEarlier<V(!new)>(s: State<V>, key: string, data: V, t: real, u: real)
    requires HeldFrom(s, key, data, t) && u <= t
    ensures HeldFrom(s, key, data, u)
  {
  }

  // Whole runs.

  /**
   What is stored expires when it is due, and what renews a held key expires when everything
   behind it is due.
   */
  ghost predicate InTime<V(!new)>(ttl: real, due: Deadline<V>, s: State<V>, e: Event<V>)
    requires Enabled(s, e)
  {
    e.Commit? && ttl >= 0.0 ==>
      var es := Entries(s.work.items, s.work.heldAt, e.t, ttl);
      && (forall x :: x in es ==> e.t + ttl <= due(x))
      && forall x, i, j :: x in es && 0 <= i < j < |s.local| && s.local[i].key == x.key ==>
           e.t + ttl <= due(s.local[j])
  }

  lemma LocalExpires<V(!new)>(ttl: real, s: State<V>, t: real)
    requires Inv(ttl, s) && t >= s.clock
    ensures forall e :: e in s.local ==> e.expires <= t + ttl
  {
    forall e | e in s.local ensures e.expires <= t + ttl {
      assert SampleOk(ttl, s, e);
    }
  }

  lemma NewEntries<V(!new)>(c: Cache<string, Sample<V>>, items: seq<(string, V)>, heldAt: real, t: real, ttl: real)
    requires NewItems(c, items)
    ensures forall x, i :: x in Entries(items, heldAt, t, ttl) && 0 <= i < |c| ==> c[i].key != x.key
  {
    EntriesAre(items, heldAt, t, ttl);
    forall x, i | x in Entries(items, heldAt, t, ttl) && 0 <= i < |c| ensures c[i].key != x.key {
      assert (x.key, x.value.data) in items && c[i] in c;
    }
  }

  lemma NewInTime<V(!new)>(ttl: real, due: Deadline<V>, s: State<V>, t: real)
    requires Enabled(s, Commit(t)) && NewItems(s.local, s.work.items) && ttl >= 0.0
    ensures InTime(ttl, due, s, Commit(t))
       <==> forall x :: x in Entries(s.work.items, s.work.heldAt, t, ttl) ==> t + ttl <= due(x)
  {
    NewEntries(s.local, s.work.items, s.work.heldAt, t, ttl);
  }

  lemma RenewedInTime<V(!new)>(ttl: real, due: Deadline<V>, s: State<V>, t: real, p: nat)
    requires Unique(s.local) && Enabled(s, Commit(t)) && |s.work.items| == 1 && ttl >= 0.0
    requires p < |s.local| && s.local[p].key == s.work.items[0].0
    ensures var e := Entries(s.work.items, s.work.heldAt, t, ttl)[0];
      InTime(ttl, due, s, Commit(t))
      <==> t + ttl <= due(e) && forall j :: p < j < |s.local| ==> t + ttl <= due(s.local[j])
  {
    var es := Entries(s.work.items, s.work.heldAt, t, ttl);
    assert es == [es[0]] && es[0] in es;
    assert forall i :: 0 <= i < |s.local| && s.local[i].key == es[0].key ==> i == p;
  }

  lemma CommitTimelyIff<V(!new)>(ttl: real, due: Deadline<V>, s: State<V>, t: real)
    requires Inv(ttl, s) && Timely(s.local, s.clock, due) && Enabled(s, Commit(t)) && ttl >= 0.0
    ensures Timely(Next(ttl, s, Commit(t)).local, t, due) <==> InTime(ttl, due, s, Commit(t))
  {
    var c, items, heldAt := s.local, s.work.items, s.work.heldAt;
    var es := Entries(items, heldAt, t, ttl);
    LocalExpires(ttl, s, t);
    var p := CommitShape(c, items, heldAt, t, ttl);
    if NewItems(c, items) {
      EntriesAre(items, heldAt, t, ttl);
      NewInTime(ttl, due, s, t);
      TimelyAppendIff(c, es, s.clock, t, t + ttl, due);
    } else {
      RenewedInTime(ttl, due, s, t, p);
      TimelyRenewIff(c, p, es[0], s.clock, t, due);
    }
  }

  /** With a negative TTL everything has expired when the clock is read. */
  lemma NegativeIsTimely<V(!new)>(ttl: real, due: Deadline<V>, s: State<V>)
    requires Inv(ttl, s) && ttl < 0.0
    ensures Timely(s.local, s.clock, due)
  {
    LocalExpires(ttl, s, s.clock);
    ExpiredIsTimely(s.local, s.clock, due);
  }

  lemma NextTimelyIff<V(!new)>(ttl: real, due: Deadline<V>, s: State<V>, e: Event<V>)
    requires Inv(ttl, s) && Timely(s.local, s.clock, due) && Enabled(s, e)
    ensures var u := Next(ttl, s, e); Timely(u.local, u.clock, due) <==> InTime(ttl, due, s, e)
  {
    match e
    case Read(_, now) => TimelyEvict(s.local, s.clock, now, due);
    case Commit(t) =>
      if ttl >= 0.0 {
        CommitTimelyIff(ttl, due, s, t);
      } else {
        NextInv(ttl, s, e);
        NegativeIsTimely(ttl, due, Next(ttl, s, e));
      }
    case Remove(key, t) => TimelyDelete(s.local, s.clock, key, due);
    case _ =>
  }

  /** Everything that the run stores is in time. */
  ghost predicate AllInTime<V(!new)>(ttl: real, due: Deadline<V>, s: State<V>, events: seq<Event<V>>)
    requires Run(ttl, s, events).Some?
    decreases |events|
  {
    events != [] ==> InTime(ttl, due, s, events[0]) && AllInTime(ttl, due, Next(ttl, s, events[0]), events[1..])
  }

  /** In no state of the run could a read follow that finds a value later than it is due. */
  ghost predicate TimelyThroughout<V(!new)>(ttl: real, due: Deadline<V>, s: State<V>, events: seq<Event<V>>)
    requires Run(ttl, s, events).Some?
    decreases |events|
  {
    ReadsTimely(s, due) && (events != [] ==> TimelyThroughout(ttl, due, Next(ttl, s, events[0]), events[1..]))
  }

  lemma {:induction false} TimelyThroughoutIff<V(!new)>(ttl: real, due: Deadline<V>, s: State<V>, events: seq<Event<V>>)
    requires Inv(ttl, s) && Timely(s.local, s.clock, due) && Run(ttl, s, events).Some?
    ensures TimelyThroughout(ttl, due, s, events) <==> AllInTime(ttl, due, s, events)
    decreases |events|
  {
    ReadsTimelyIff(ttl, s, due);
    if events == [] {
    } else {
      var u := Next(ttl, s, events[0]);
      NextInv(ttl, s, events[0]);
      NextTimelyIff(ttl, due, s, events[0]);
      if InTime(ttl, due, s, events[0]) {
        TimelyThroughoutIff(ttl, due, u, events[1..]);
      } else {
        ReadsTimelyIff(ttl, u, due);
      }
    }
  }

  /**
   Whole runs, for any deadline: no read that could follow any state of the run finds a value
   later than it is due if and only if everything stored expires in time for itself and, where
   a put renews a held key, for everything behind it.
   */
  lemma RunTimelyIff<V(!new)>(ttl: real, due: Deadline<V>, remote: map<string, V>, events: seq<Event<V>>)
    requires Run(ttl, Init(remote), events).Some?
    ensures TimelyThroughout(ttl, due, Init(remote), events) <==> AllInTime(ttl, due, Init(remote), events)
  {
    TimelyThroughoutIff(ttl, due, Init(remote), events);
  }

  /** For the bound by TTL since the storing, the condition concerns renewed keys only. */
  lemma InTimeSinceStored<V(!new)>(ttl: real, s: State<V>, t: real)
    requires Inv(ttl, s) && Enabled(s, Commit(t)) && ttl >= 0.0
    ensures InTime(ttl, SinceStored(ttl), s, Commit(t))
       <==> forall x, i, j :: x in s.work.items && 0 <= i < j < |s.local| && s.local[i].key == x.0 ==>
              s.local[j].value.storedAt >= t
  {
    var es := Entries(s.work.items, s.work.heldAt, t, ttl);
    EntriesAre(s.work.items, s.work.heldAt, t, ttl);
    ItemsAre(s.work.items, s.work.heldAt, t, ttl);
    assert forall x :: x in es ==> SinceStored(ttl)(x) == t + ttl;
  }

  /** For the bound by TTL and slack since the remote access, the delay of the storing counts too. */
  lemma InTimeSinceHeld<V(!new)>(ttl: real, slack: real, s: State<V>, t: real)
    requires Enabled(s, Commit(t)) && ttl >= 0.0
    ensures InTime(ttl, SinceHeld(ttl, slack), s, Commit(t))
       <==> && (s.work.items != [] ==> t <= s.work.heldAt + slack)
            && forall x, i, j :: x in s.work.items && 0 <= i < j < |s.local| && s.local[i].key == x.0 ==>
                 t <= s.local[j].value.heldAt + slack
  {
    var es := Entries(s.work.items, s.work.heldAt, t, ttl);
    EntriesAre(s.work.items, s.work.heldAt, t, ttl);
    ItemsAre(s.work.items, s.work.heldAt, t, ttl);
    assert forall x :: x in es ==> SinceHeld(ttl, slack)(x) == s.work.heldAt + ttl + slack;
    assert es != [] ==> es[0] in es;
  }

  lemma ItemsAre<V>(items: seq<(string, V)>, heldAt: real, t: real, ttl: real)
    ensures var es := Entries(items, heldAt, t, ttl);
      forall x :: x in items ==> Entry(x.0, t + ttl, Sample(x.1, heldAt, t)) in es
  {
    var es := Entries(items, heldAt, t, ttl);
    forall x | x in items ensures Entry(x.0, t + ttl, Sample(x.1, heldAt, t)) in es {
      var i :| 0 <= i < |items| && items[i] == x;
      assert es[i] == Entry(x.0, t + ttl, Sample(x.1, heldAt, t));
    }
  }

  lemma ReachNext<V(!new)>(ttl: real, s: State<V>, e: Event<V>, t: State<V>)
    requires Reachable(ttl, s) && Enabled(s, e)
    requires t == Next(ttl, s, e)
    ensures Reachable(ttl, t)
  {
    var remote, events :| Run(ttl, Init(remote), events) == Some(s);
    assert [e][1..] == [] && Run(ttl, t, []) == Some(t);
    RunThen(ttl, Init(remote), events, [e]);
  }

  // A put that renews a cached key in place hides an older entry behind it.

  const BOTH := map["a" := 1, "b" := 1]

  const A_ONLY := map["a" := 1]

  const A_AGAIN := map["a" := 2]

  function Overwrite(step: nat): State<int>
    requires step <= 6
  {
    var h := [(0.0, BOTH)];
    var both := [Entry("a", 5.0, Sample(1, 0.0, 0.0)), Entry("b", 5.0, Sample(1, 0.0, 0.0))];
    match step
    case 0 => State([], BOTH, 0.0, Idle, h)
    case 1 => State([], BOTH, 0.0, Wanting(["a", "b"]), h + h)
    case 2 => State([], BOTH, 0.0, Storing([("a", 1), ("b", 1)], 0.0), h + h + h)
    case 3 => State(both, BOTH, 0.0, Idle, h + h + h + h)
    case 4 => State(both, A_ONLY, 1.0, Idle, h + h + h + h + [(1.0, A_ONLY)])
    case 5 =>
      State(both, A_AGAIN, 4.0, Storing([("a", 2)], 4.0), h + h + h + h + [(1.0, A_ONLY)] + [(4.0, A_AGAIN)])
    case _ =>
      State([Entry("a", 9.0, Sample(2, 4.0, 4.0)), Entry("b", 5.0, Sample(1, 0.0, 0.0))], A_AGAIN, 4.0, Idle,
            h + h + h + h + [(1.0, A_ONLY)] + [(4.0, A_AGAIN)] + [(4.0, A_AGAIN)])
  }

  lemma OverwriteReads()
    ensures Enabled(Overwrite(0), Read(["a", "b"], 0.0))
    ensures Next(5.0, Overwrite(0), Read(["a", "b"], 0.0)) == Overwrite(1)
  {
    var c: Cache<string, Sample<int>> := [];
    assert ["a", "b"][1..] == ["b"] && ["b"][1..] == [];
    assert Missed(c, ["b"]) == ["b"];
    assert Missed(c, ["a", "b"]) == ["a", "b"];
  }

  lemma OverwriteFetches()
    ensures Enabled(Overwrite(1), Fetch(0.0)) && Next(5.0, Overwrite(1), Fetch(0.0)) == Overwrite(2)
  {
    assert ["a", "b"][1..] == ["b"] && ["b"][1..] == [];
    assert Found(BOTH, ["b"]) == [("b", 1)];
    assert Found(BOTH, ["a", "b"]) == [("a", 1), ("b", 1)];
  }

  lemma OverwriteCommits()
    ensures Enabled(Overwrite(2), Commit(0.0)) && Next(5.0, Overwrite(2), Commit(0.0)) == Overwrite(3)
  {
    var c: Cache<string, Sample<int>> := [];
    var one, v := [Entry("a", 5.0, Sample(1, 0.0, 0.0))], Sample(1, 0.0, 0.0);
    assert [("a", 1), ("b", 1)][1..] == [("b", 1)] && [("b", 1)][1..] == [];
    AssignAbsent(one, "b", 5.0, v);
    assert Stored(one, [("b", 1)], 0.0, 0.0, 5.0) == one + [Entry("b", 5.0, v)];
  }

  lemma OverwritePuts()
    ensures Enabled(Overwrite(3), Other(A_ONLY, 1.0)) && Next(5.0, Overwrite(3), Other(A_ONLY, 1.0)) == Overwrite(4)
    ensures Enabled(Overwrite(4), Write("a", 2, 4.0)) && Next(5.0, Overwrite(4), Write("a", 2, 4.0)) == Overwrite(5)
  {
    assert A_ONLY["a" := 2] == A_AGAIN;
  }

  lemma OverwriteRenews()
    ensures Enabled(Overwrite(5), Commit(4.0)) && Next(5.0, Overwrite(5), Commit(4.0)) == Overwrite(6)
  {
    assert [("a", 2)][1..] == [];
  }

  /**
   Without the condition on puts the bound fails: at 8.0, with a TTL of 5.0, a read finds a
   value that the remote store has not held since 1.0, although it was stored without delay.
   */
  lemma OverwriteReturnsStale()
    ensures var s := Overwrite(6);
      && Reachable(5.0, s) && s.clock == 4.0
      && Hit(s, "b", 8.0) == Some(Sample(1, 0.0, 0.0))
      && !HeldFrom(s, "b", 1, 1.0)
  {
    assert Run(5.0, Init(BOTH), []) == Some(Overwrite(0));
    OverwriteReads();   ReachNext(5.0, Overwrite(0), Read(["a", "b"], 0.0), Overwrite(1));
    OverwriteFetches(); ReachNext(5.0, Overwrite(1), Fetch(0.0), Overwrite(2));
    OverwriteCommits(); ReachNext(5.0, Overwrite(2), Commit(0.0), Overwrite(3));
    OverwritePuts();    ReachNext(5.0, Overwrite(3), Other(A_ONLY, 1.0), Overwrite(4));
                        ReachNext(5.0, Overwrite(4), Write("a", 2, 4.0), Overwrite(5));
    OverwriteRenews();  ReachNext(5.0, Overwrite(5), Commit(4.0), Overwrite(6));
    OverwriteHit();
    OverwriteGone();
  }

  lemma OverwriteHit()
    ensures Hit(Overwrite(6), "b", 8.0) == Some(Sample(1, 0.0, 0.0))
  {
    var c := Overwrite(6).local;
    assert Evict(c, 8.0) == c;
    assert c[1..] == [Entry("b", 5.0, Sample(1, 0.0, 0.0))];
    assert Lookup(c[1..], "b").Some?;
  }

  lemma OverwriteGone()
    ensures !HeldFrom(Overwrite(6), "b", 1, 1.0)
  {
    var h := Overwrite(6).history;
    assert |h| == 7 && h[4] == (1.0, A_ONLY) && h[5] == (4.0, A_AGAIN) && h[6] == (4.0, A_AGAIN);
    assert "b" !in A_ONLY && "b" !in A_AGAIN;
    assert forall i :: 0 <= i < 4 ==> h[i] == (0.0, BOTH);
    assert forall i :: 0 <= i < 7 && "b" in h[i].1 ==> i < 4;
  }

  // A slow remote call adds to the age, without any put.

  function Slow(step: nat): State<int>
    requires step <= 4
  {
    var h := [(0.0, A_ONLY)];
    match step
    case 0 => State([], A_ONLY, 0.0, Idle, h)
    case 1 => State([], A_ONLY, 0.0, Wanting(["a"]), h + h)
    case 2 => State([], A_ONLY, 0.0, Storing([("a", 1)], 0.0), h + h + h)
    case 3 => State([], map[], 1.0, Storing([("a", 1)], 0.0), h + h + h + [(1.0, map[])])
    case _ =>
      State([Entry("a", 15.0, Sample(1, 0.0, 10.0))], map[], 10.0, Idle,
            h + h + h + [(1.0, map[])] + [(10.0, map[])])
  }

  lemma SlowSteps()
    ensures Enabled(Slow(0), Read(["a"], 0.0)) && Next(5.0, Slow(0), Read(["a"], 0.0)) == Slow(1)
    ensures Enabled(Slow(1), Fetch(0.0)) && Next(5.0, Slow(1), Fetch(0.0)) == Slow(2)
    ensures Enabled(Slow(2), Other(map[], 1.0)) && Next(5.0, Slow(2), Other(map[], 1.0)) == Slow(3)
    ensures Enabled(Slow(3), Commit(10.0)) && Next(5.0, Slow(3), Commit(10.0)) == Slow(4)
  {
    assert ["a"][1..] == [] && [("a", 1)][1..] == [];
    var c: Cache<string, Sample<int>> := [];
    assert Missed(c, ["a"]) == ["a"];
    assert Found(A_ONLY, ["a"]) == [("a", 1)];
    assert Stored(c, [("a", 1)], 0.0, 10.0, 5.0) == [Entry("a", 15.0, Sample(1, 0.0, 10.0))];
  }

  lemma SlowReachable()
    ensures Reachable(5.0, Slow(4))
  {
    assert Run(5.0, Init(A_ONLY), []) == Some(Slow(0));
    SlowSteps();
    ReachNext(5.0, Slow(0), Read(["a"], 0.0), Slow(1));
    ReachNext(5.0, Slow(1), Fetch(0.0), Slow(2));
    ReachNext(5.0, Slow(2), Other(map[], 1.0), Slow(3));
    ReachNext(5.0, Slow(3), Commit(10.0), Slow(4));
  }

  /**
   TTL alone is not a bound: with a TTL of 5.0 a read at 12.0 finds a value that the remote
   store has not held since 1.0, because ten units passed between the remote read and the storing.
   */
  lemma SlowAnswersAgeMore()
    ensures var s := Slow(4);
      && Reachable(5.0, s) && s.clock == 10.0
      && Hit(s, "a", 12.0) == Some(Sample(1, 0.0, 10.0))
      && !HeldFrom(s, "a", 1, 1.0)
  {
    SlowReachable();
    SlowGone();
    assert Slow(4).local[1..] == [];
  }

  lemma SlowGone()
    ensures !HeldFrom(Slow(4), "a", 1, 1.0)
  {
    var h := Slow(4).history;
    assert |h| == 5 && h[3] == (1.0, map[]) && h[4] == (10.0, map[]);
    assert forall i :: 0 <= i < 3 ==> h[i] == (0.0, A_ONLY);
    assert forall i :: 0 <= i < 5 && "a" in h[i].1 ==> i < 3;
  }
}
