/**
 Token verification behind its cache of 30 seconds: what a token that is accepted is worth at
 that instant.
 */
module TokenCache {
  import opened Prelude
  import opened ExpiringCache
  import opened ArgsCache
  import opened ArgsCacheRuns
  import opened Token
  import opened Base64

  const TTL := 30.0

  /** What one verification gave, with the instants at which it read the clock and the token's record. */
  datatype Verified = Verified(fields: Fields, clockAt: real, recordAt: real)

  /** The world at every instant. */
  type Worlds = real -> World

  /** The world as one verification sees it. */
  function Seen(w: Worlds, v: Verified): World {
    w(v.recordAt).(now := v.clockAt)
  }

  predicate Verifies(w: Worlds, token: Text, v: Verified) {
    v.clockAt <= v.recordAt && VerifyToken(token, Seen(w, v)) == Ok(v.fields)
  }

  /** Only results of verification are stored, after they have been obtained. */
  predicate Honest(w: Worlds, e: Event<Text, Verified>) {
    e.Store? ==> Verifies(w, e.key, e.data) && e.data.recordAt <= e.at
  }

  ghost predicate HonestRun(w: Worlds, events: seq<Event<Text, Verified>>) {
    forall e :: e in events ==> Honest(w, e)
  }

  ghost predicate HonestlyReachable(w: Worlds, s: State<Text, Verified>) {
    exists events :: HonestRun(w, events) && Run(TTL, Init(), events) == Some(s)
  }

  /** Every cached result was a result of verification, obtained before it was stored. */
  ghost predicate CacheHonest(w: Worlds, latest: map<Text, (Verified, real)>) {
    forall k :: k in latest ==> Verifies(w, k, latest[k].0) && latest[k].0.recordAt <= latest[k].1
  }

  lemma StoreHonest(w: Worlds, latest: map<Text, (Verified, real)>, key: Text, v: Verified, at: real)
    requires CacheHonest(w, latest) && Verifies(w, key, v) && v.recordAt <= at
    ensures CacheHonest(w, latest[key := (v, at)])
  {
    var after := latest[key := (v, at)];
    forall k | k in after ensures Verifies(w, k, after[k].0) && after[k].0.recordAt <= after[k].1 {
      if k == key {
        assert after[k] == (v, at);
      } else {
        assert k in latest && after[k] == latest[k];
      }
    }
  }

  lemma NextHonest(w: Worlds, s: State<Text, Verified>, e: Event<Text, Verified>)
    requires CacheHonest(w, s.latest) && Enabled(s, e) && Honest(w, e)
    ensures CacheHonest(w, Next(TTL, s, e).latest)
  {
    match e
    case Store(key, v, at) => StoreHonest(w, s.latest, key, v, at);
    case _ =>
  }

  lemma {:induction false} RunHonest(w: Worlds, s: State<Text, Verified>, events: seq<Event<Text, Verified>>)
    requires CacheHonest(w, s.latest) && HonestRun(w, events)
    ensures Run(TTL, s, events).Some? ==> CacheHonest(w, Run(TTL, s, events).value.latest)
    decreases |events|
  {
    if events == [] {
    } else if Enabled(s, events[0]) {
      assert Honest(w, events[0]);
      NextHonest(w, s, events[0]);
      assert HonestRun(w, events[1..]);
      RunHonest(w, Next(TTL, s, events[0]), events[1..]);
    }
  }

  lemma ReachableHonest(w: Worlds, s: State<Text, Verified>)
    requires HonestlyReachable(w, s)
    ensures Inv(TTL, s) && CacheHonest(w, s.latest)
  {
    var events :| HonestRun(w, events) && Run(TTL, Init(), events) == Some(s);
    RunKeepsInv(TTL, Init(), events);
    RunHonest(w, Init(), events);
  }

  /** `verifyToken` as decorated: a call that enters at `now` returns v, from the cache or by verifying. */
  predicate Returns(w: Worlds, s: State<Text, Verified>, token: Text, now: real, v: Verified) {
    match Hit(s, token, now)
    case Some(h) => v == h
    case None => Verifies(w, token, v) && now <= v.clockAt
  }

  /**
   After any run, overlapping or not: what a call returns was authentic when it was verified,
   for exactly the text presented.
   */
  lemma ReturnedWasAuthentic(w: Worlds, s: State<Text, Verified>, token: Text, now: real, v: Verified)
    requires HonestlyReachable(w, s) && Returns(w, s, token, now, v)
    ensures Authentic(v.fields, Seen(w, v)) && v.clockAt <= v.recordAt
    ensures token == v.fields.content + [DOT] + v.fields.signature && DotFree(v.fields.signature)
  {
    ReachableHonest(w, s);
    if Hit(s, token, now).Some? {
      FoundIsLatest(TTL, s, token, now);
    }
    assert Verifies(w, token, v);
    AcceptedTokensAreSigned(token, Seen(w, v));
  }

  /**
   If moreover nothing behind an entry still good expires earlier, a returned token was stored
   no more than 30 seconds ago, so only the time that its verification took adds to its age.
   */
  lemma ReturnedIsRecent(w: Worlds, s: State<Text, Verified>, token: Text, now: real, v: Verified)
    requires HonestlyReachable(w, s) && Returns(w, s, token, now, v) && now >= s.clock
    requires OrderedFrom(s.cache, s.clock)
    ensures now <= v.clockAt
         || (token in s.latest && s.latest[token].0 == v
             && v.recordAt <= s.latest[token].1 && now <= s.latest[token].1 + 30.0)
  {
    ReachableHonest(w, s);
    OrderedIsIdeal(TTL, s, token, now);
  }

  // Deadlines of a cached token.

  /** Its verification read the clock TTL and slack ago. */
  function SinceVerified(slack: real): Entry<Text, Verified> -> real {
    (e: Entry<Text, Verified>) => e.value.clockAt + TTL + slack
  }

  /** It expires. */
  function TokenExpiry(): Entry<Text, Verified> -> real {
    (e: Entry<Text, Verified>) => e.value.fields.expires as real
  }

  /**
   After any run: no later call returns a token whose verification read the clock longer than
   30 seconds and slack ago if and only if no entry still good expires later than that, for
   itself and for every entry behind it.
   */
  lemma RecentIff(w: Worlds, slack: real, s: State<Text, Verified>)
    requires HonestlyReachable(w, s)
    ensures (forall token, now :: now >= s.clock && Hit(s, token, now).Some? ==>
              now <= Hit(s, token, now).value.clockAt + 30.0 + slack)
       <==> forall i, j :: 0 <= i <= j < |s.cache| && s.cache[i].expires >= s.clock ==>
              s.cache[i].expires <= s.cache[j].value.clockAt + 30.0 + slack
  {
    ReachableHonest(w, s);
    FoundTimelyIff(s.cache, s.clock, SinceVerified(slack));
    assert forall token, now :: Hit(s, token, now).Some? <==> Has(Evict(s.cache, now), token);
    assert forall e: Entry<Text, Verified> :: SinceVerified(slack)(e) == e.value.clockAt + TTL + slack;
  }

  /**
   After any run: no later call returns a cached token that has expired if and only if no entry
   still good outlives the token in it or a token behind it.
   */
  lemma NeverExpiredIff(w: Worlds, s: State<Text, Verified>)
    requires HonestlyReachable(w, s)
    ensures (forall token, now :: now >= s.clock && Hit(s, token, now).Some? ==>
              now <= Hit(s, token, now).value.fields.expires as real)
       <==> forall i, j :: 0 <= i <= j < |s.cache| && s.cache[i].expires >= s.clock ==>
              s.cache[i].expires <= s.cache[j].value.fields.expires as real
  {
    ReachableHonest(w, s);
    FoundTimelyIff(s.cache, s.clock, TokenExpiry());
    assert forall token, now :: Hit(s, token, now).Some? <==> Has(Evict(s.cache, now), token);
    assert forall e: Entry<Text, Verified> :: TokenExpiry()(e) == e.value.fields.expires as real;
  }

  /**
   Whole runs: no call that could follow any state of the run returns a cached token that has
   expired if and only if every token is stored at least 30 seconds before its expiry and, where
   an overlapping call renews it, before that of all tokens behind it.
   */
  lemma RunNeverExpiredIff(events: seq<Event<Text, Verified>>)
    requires Run(TTL, Init(), events).Some?
    ensures TimelyThroughout(TTL, TokenExpiry(), Init(), events) <==> AllInTime(TTL, TokenExpiry(), Init(), events)
  {
    RunIsTimelyIff(TTL, TokenExpiry(), events);
  }

  /** The run that verifies one token at t and stores it at once. */
  function VerifyOnce(token: Text, f: Fields, t: real): seq<Event<Text, Verified>> {
    [Enter(token, t), Store(token, Verified(f, t, t), t)]
  }

  /** The state that this run ends in. */
  function Once(token: Text, f: Fields, t: real): State<Text, Verified> {
    State([Entry(token, t + TTL, Verified(f, t, t))], multiset{}, t, map[token := (Verified(f, t, t), t)])
  }

  lemma OnceSteps(token: Text, f: Fields, t: real)
    requires t >= 0.0
    ensures var s := Next(TTL, Init(), Enter(token, t));
      s == State([], multiset{token}, t, map[]) && Next(TTL, s, Store(token, Verified(f, t, t), t)) == Once(token, f, t)
  {
    var c: Cache<Text, Verified> := [];
    assert Evict(c, t) == [];
    assert Next(TTL, Init<Text, Verified>(), Enter(token, t)) == State([], multiset{token}, t, map[]);
    assert multiset{token} - multiset{token} == multiset{};
  }

  lemma AfterVerifyOnce(token: Text, f: Fields, t: real)
    requires t >= 0.0
    ensures Run(TTL, Init(), VerifyOnce(token, f, t)) == Some(Once(token, f, t))
  {
    var events := VerifyOnce(token, f, t);
    OnceSteps(token, f, t);
    assert events[1..] == [events[1]] && events[1..][1..] == [];
    assert Run(TTL, Once(token, f, t), []) == Some(Once(token, f, t));
    assert Run(TTL, Next(TTL, Init(), events[0]), [events[1]]) == Some(Once(token, f, t));
  }

  lemma OnceHit(token: Text, f: Fields, t: real, now: real)
    ensures Hit(Once(token, f, t), token, now) == if now <= t + TTL then Some(Verified(f, t, t)) else None
  {
    var c := Once(token, f, t).cache;
    assert c[1..] == [] && c[0].expires == t + TTL;
    if now <= t + TTL {
      assert Evict(c, now) == c;
    } else {
      assert Evict(c, now) == [];
    }
  }

  lemma OnceHonest(w: Worlds, token: Text, f: Fields, t: real)
    requires 0.0 <= t && Verifies(w, token, Verified(f, t, t))
    ensures HonestlyReachable(w, Once(token, f, t))
  {
    AfterVerifyOnce(token, f, t);
    var events := VerifyOnce(token, f, t);
    forall e | e in events ensures Honest(w, e) {
      assert e == Enter(token, t) || e == Store(token, Verified(f, t, t), t);
    }
    assert HonestRun(w, events);
  }

  /**
   A token that is verified at t is returned until t + 30 whatever happens in between: also when
   it has expired, which can be right after t, or when its record has been deactivated or removed.
   */
  lemma ExpiredButAccepted(w: Worlds, token: Text, f: Fields, t: real, now: real)
    requires 0.0 <= t <= now && Verifies(w, token, Verified(f, t, t))
    ensures HonestlyReachable(w, Once(token, f, t))
    ensures Returns(w, Once(token, f, t), token, now, Verified(f, t, t)) <==> now <= t + 30.0
    ensures f.expires as real < now || w(now).record(f.guid) != w(t).record(f.guid) ==>
      !Authentic(f, w(now).(now := now))
  {
    OnceHonest(w, token, f, t);
    OnceHit(token, f, t, now);
    AcceptedTokensAreSigned(token, Seen(w, Verified(f, t, t)));
  }
}
