/** What the listener guarantees over whole runs: order, exactly-once handling, shutdown. */
module TelegramShutdown {
  import opened Prelude
  import opened TelegramListener

  lemma ReachableInv(n: nat, s: State)
    requires Reachable(n, s)
    ensures Inv(s) && |s.workers| == n
  {
    var events :| Run(Init(n), events) == Some(s);
    InitInv(n);
    RunInv(Init(n), events);
  }

  lemma IncreasingDistinct(ids: seq<nat>, id: nat)
    requires Increasing(ids)
    ensures multiset(ids)[id] <= 1
    decreases |ids|
  {
    if ids != [] {
      var front := ids[..|ids| - 1];
      assert ids == front + [ids[|ids| - 1]];
      IncreasingDistinct(front, id);
      assert forall i :: 0 <= i < |front| ==> front[i] == ids[i] < ids[|ids| - 1];
    }
  }

  /** What the invariant says about the ids. */
  lemma HandledOnce(s: State)
    requires Inv(s)
    ensures Increasing(s.enqueued)
    ensures multiset(s.enqueued) == multiset(s.handled) + InFlight(s.workers) + multiset(s.queue)
    ensures forall id :: multiset(s.handled)[id] <= 1
    ensures s.unfinished == |s.enqueued| - |s.handled|
  {
    forall i, j | 0 <= i < j < |s.enqueued| ensures s.enqueued[i] < s.enqueued[j] {
      assert s.enqueued[i] == s.server[i] && s.enqueued[j] == s.server[j];
    }
    forall id ensures multiset(s.handled)[id] <= 1 {
      IncreasingDistinct(s.enqueued, id);
    }
    assert |multiset(s.taken)| == |multiset(s.handled)| + |InFlight(s.workers)|;
  }

  /**
   In every reachable state, failed polls or not, what was enqueued is a prefix of what the
   server was given, strictly increasing; each id enqueued is in exactly one of three places,
   the queue, a worker's hands or the handled ones, and was handled at most once; and
   task_done has been called once for each id that was both taken and handled.
   */
  lemma ExactlyOnce(n: nat, s: State)
    requires Reachable(n, s)
    ensures s.enqueued <= s.server && Increasing(s.enqueued)
    ensures s.enqueued == s.taken + s.queue
    ensures multiset(s.enqueued) == multiset(s.handled) + InFlight(s.workers) + multiset(s.queue)
    ensures forall id :: multiset(s.handled)[id] <= 1
    ensures s.unfinished == |s.enqueued| - |s.handled|
  {
    ReachableInv(n, s);
    HandledOnce(s);
  }

  /** The flag is down and every coroutine has returned. */
  ghost predicate Final(s: State) {
    !s.alive && s.receiver.Stopped? && forall w :: w in s.workers ==> w.Exited?
  }

  /** Every update the server regards as confirmed has been handled. */
  ghost predicate ConfirmedHandled(s: State) {
    forall id :: id in s.server && id < s.confirmed ==> id in s.handled
  }

  lemma ConfirmedWasEnqueued(s: State, id: nat)
    requires InOrder(s) && ConfirmedWerePut(s) && id in s.server && id < s.confirmed
    ensures id in s.enqueued
  {
    var k :| 0 <= k < |s.server| && s.server[k] == id;
    var n := |s.enqueued|;
    assert s.server[n - 1] == s.enqueued[n - 1];
    IncreasingIndex(s.server, n - 1, k);
    assert s.enqueued[k] == id;
  }

  lemma IncreasingIndex(ids: seq<nat>, i: nat, j: nat)
    requires Increasing(ids) && i < |ids| && j < |ids| && ids[j] <= ids[i]
    ensures j <= i
  {
  }

  /**
   Safe shutdown with at least one worker: when all have returned, every confirmed update has
   been handled, and every update enqueued but not handled is still unconfirmed at the server,
   and belongs to the batch of the last poll.
   */
  lemma SafeShutdown(n: nat, s: State)
    requires n >= 1 && Reachable(n, s) && Final(s)
    ensures ConfirmedHandled(s)
    ensures forall id :: id in s.enqueued && id !in s.handled ==> id >= s.lastOffset >= s.confirmed
  {
    ReachableInv(n, s);
    InFlightNone(s.workers);
    assert s.workers[0] in s.workers;
    forall id | id in s.enqueued && id !in s.handled ensures id >= s.lastOffset {
      assert id in s.taken || id in s.queue;
      assert id in s.taken ==> id in multiset(s.taken);
    }
    forall id | id in s.server && id < s.confirmed ensures id in s.handled {
      ConfirmedWasEnqueued(s, id);
    }
  }

  /** Even before shutdown a confirmed update is handled, in a worker's hands or queued. */
  lemma ConfirmedNeverLost(n: nat, s: State, id: nat)
    requires Reachable(n, s) && id in s.server && id < s.confirmed
    ensures id in s.handled || id in InFlight(s.workers) || id in s.queue
  {
    ReachableInv(n, s);
    ConfirmedWasEnqueued(s, id);
    assert id in s.taken || id in s.queue;
    assert id in s.taken ==> id in multiset(s.taken);
  }

  lemma ReachNext(n: nat, s: State, e: Event)
    requires Reachable(n, s) && Enabled(s, e)
    ensures Reachable(n, Next(s, e))
  {
    var events :| Run(Init(n), events) == Some(s);
    RunAppend(Init(n), events, e);
    assert Run(Init(n), events + [e]) == Some(Next(s, e));
  }

  /** Without workers a confirmed update can be left unhandled. */
  lemma NoWorkersLosesUpdates() returns (s: State)
    ensures Reachable(0, s) && Final(s) && !ConfirmedHandled(s)
  {
    s := Init(0);
    assert Run(s, []) == Some(s);
    ReachNext(0, s, Arrive(1));          s := Next(s, Arrive(1));
    ReachNext(0, s, ReceiverCheck);      s := Next(s, ReceiverCheck);
    assert FirstAtLeast([1], 0) == 0;
    ReachNext(0, s, PollServed(1));      s := Next(s, PollServed(1));
    ReachNext(0, s, AnswerRead);         s := Next(s, AnswerRead);
    ReachNext(0, s, Put);                s := Next(s, Put);
    ReachNext(0, s, ReceiverCheck);      s := Next(s, ReceiverCheck);
    ReachNext(0, s, PollServed(0));      s := Next(s, PollServed(0));
    ReachNext(0, s, Terminate);          s := Next(s, Terminate);
    ReachNext(0, s, AnswerLost);         s := Next(s, AnswerLost);
    ReachNext(0, s, ReceiverCheck);      s := Next(s, ReceiverCheck);
    assert 1 in s.server && 1 < s.confirmed && 1 !in s.handled;
  }

  /** Shutdown is safe on every run if and only if there is a worker. */
  lemma SafeShutdownIff(n: nat)
    ensures (forall s :: Reachable(n, s) && Final(s) ==> ConfirmedHandled(s)) <==> n >= 1
  {
    if n >= 1 {
      forall s | Reachable(n, s) && Final(s) ensures ConfirmedHandled(s) {
        SafeShutdown(n, s);
      }
    } else {
      var s := NoWorkersLosesUpdates();
    }
  }

  // Shutdown completes: with the flag down every run is finite and can only end when all
  // coroutines have returned.

  /** How far a worker is from leaving; with an empty queue a check comes last. */
  function Rank(w: Worker, idle: bool): (r: nat)
    ensures r <= 3
  {
    match w
    case Exited => 0
    case Checking => if idle then 1 else 2
    case Taking => if idle then 2 else 1
    case Handling(_) => 3
  }

  function Ranks(ws: seq<Worker>, idle: bool): (r: nat)
    decreases |ws|
  {
    if ws == [] then 0 else Rank(ws[0], idle) + Ranks(ws[1..], idle)
  }

  lemma {:induction false} RanksUpdate(ws: seq<Worker>, i: nat, w: Worker, idle: bool)
    requires i < |ws|
    ensures Ranks(ws[i := w], idle) + Rank(ws[i], idle) == Ranks(ws, idle) + Rank(w, idle)
    decreases |ws|
  {
    var ws' := ws[i := w];
    if i == 0 {
      assert ws'[1..] == ws[1..];
    } else {
      assert ws'[1..] == ws[1..][i - 1 := w] && ws'[0] == ws[0];
      RanksUpdate(ws[1..], i - 1, w, idle);
    }
  }

  lemma {:induction false} RanksShift(ws: seq<Worker>, a: bool, b: bool)
    ensures Ranks(ws, a) <= Ranks(ws, b) + |ws|
    decreases |ws|
  {
    if ws == [] {
    } else {
      RanksShift(ws[1..], a, b);
    }
  }

  /** n items of the given weight. */
  function Weigh(n: nat, weight: nat): nat {
    if n == 0 then 0 else weight + Weigh(n - 1, weight)
  }

  lemma {:induction false} WeighMonotonic(m: nat, n: nat, weight: nat)
    requires m <= n
    ensures Weigh(m, weight) <= Weigh(n, weight)
    decreases n - m
  {
    if m == n {
    } else {
      WeighMonotonic(m, n - 1, weight);
    }
  }

  /** A queued update costs this much: a worker's way through it, and a wake-up for all. */
  function QueueWeight(s: State): nat {
    |s.workers| + 4
  }

  function BatchWeight(s: State): nat {
    QueueWeight(s) + |s.workers| + 1
  }

  function ReceiverWork(s: State): nat {
    match s.receiver
    case Stopped => 0
    case AtCheck => 1
    case Putting(batch) => 1 + Weigh(|batch|, BatchWeight(s))
    case Answered(batch) => 2 + Weigh(|batch|, BatchWeight(s))
    case Polling => 3 + Weigh(|Pending(s)|, BatchWeight(s))
  }

  /** A bound on the steps left once the flag is down and no more updates arrive. */
  function StepsLeft(s: State): nat {
    ReceiverWork(s) + Weigh(|s.queue|, QueueWeight(s)) + Ranks(s.workers, s.queue == [])
  }

  lemma ReceiverStepLess(s: State, e: Event)
    requires Enabled(s, e) && !s.alive && InOrder(s)
    requires e.ReceiverCheck? || e.PollLost? || e.PollServed? || e.AnswerLost? || e.AnswerRead?
    ensures StepsLeft(Next(s, e)) < StepsLeft(s)
  {
    if e.PollServed? {
      WeighMonotonic(e.n, |Pending(s)|, BatchWeight(s));
    }
  }

  lemma PutLess(s: State)
    requires Enabled(s, Put)
    ensures StepsLeft(Next(s, Put)) < StepsLeft(s)
  {
    var t := Next(s, Put);
    RanksShift(s.workers, false, s.queue == []);
    assert t.queue != [];
    assert Weigh(|t.queue|, QueueWeight(s)) == QueueWeight(s) + Weigh(|s.queue|, QueueWeight(s));
    assert Weigh(|s.receiver.batch|, BatchWeight(s))
        == BatchWeight(s) + Weigh(|s.receiver.batch| - 1, BatchWeight(s));
  }

  lemma WorkerLess(s: State, e: Event)
    requires Enabled(s, e) && !s.alive
    requires e.WorkerCheck? || e.WorkerTake? || e.WorkerFinish?
    ensures StepsLeft(Next(s, e)) < StepsLeft(s)
  {
    var t, idle := Next(s, e), s.queue == [];
    RanksUpdate(s.workers, e.i, t.workers[e.i], idle);
    if e.WorkerTake? && !idle {
      RanksShift(t.workers, t.queue == [], idle);
    }
  }

  lemma StepLess(s: State, e: Event)
    requires Enabled(s, e) && !s.alive && InOrder(s) && !e.Arrive?
    ensures StepsLeft(Next(s, e)) < StepsLeft(s)
  {
    if e.Put? {
      PutLess(s);
    } else if e.WorkerCheck? || e.WorkerTake? || e.WorkerFinish? {
      WorkerLess(s, e);
    } else {
      ReceiverStepLess(s, e);
    }
  }

  lemma {:induction false} FirstAppend(ids: seq<nat>, id: nat, offset: nat)
    ensures FirstAtLeast(ids + [id], offset) >= FirstAtLeast(ids, offset)
  {
    if ids == [] {
    } else {
      assert (ids + [id])[1..] == ids[1..] + [id];
      FirstAppend(ids[1..], id, offset);
    }
  }

  /** An arrival adds at most one update to what is still to be asked for. */
  lemma ArrivalAdds(s: State, id: nat)
    requires Enabled(s, Arrive(id))
    ensures StepsLeft(Next(s, Arrive(id))) <= StepsLeft(s) + BatchWeight(s)
  {
    var t := Next(s, Arrive(id));
    FirstAppend(s.server, id, s.mostRecent);
    assert |Pending(t)| <= |Pending(s)| + 1;
    WeighMonotonic(|Pending(t)|, |Pending(s)| + 1, BatchWeight(s));
  }

  lemma FirstStep(s: State, events: seq<Event>) returns (t: State)
    requires Inv(s) && !s.alive && Run(s, events).Some? && events != []
    ensures Inv(t) && !t.alive && Run(t, events[1..]).Some? && BatchWeight(t) == BatchWeight(s)
    ensures StepsLeft(t) + 1 <= StepsLeft(s) + if events[0].Arrive? then BatchWeight(s) + 1 else 0
  {
    var e := events[0];
    t := Next(s, e);
    NextInv(s, e);
    if e.Arrive? {
      ArrivalAdds(s, e.id);
    } else {
      StepLess(s, e);
    }
  }

  function Arrivals(events: seq<Event>): nat {
    if events == [] then 0 else (if events[0].Arrive? then 1 else 0) + Arrivals(events[1..])
  }

  lemma ArrivalsWeigh(events: seq<Event>, weight: nat)
    requires events != []
    ensures Weigh(Arrivals(events), weight)
         == Weigh(Arrivals(events[1..]), weight) + if events[0].Arrive? then weight else 0
  {
  }

  /**
   Once the flag is down, the length of a run is bounded, whatever it interleaves, by the work
   that is left and a constant for every update that still arrives.
   */
  lemma {:induction false} ShutdownBounded(s: State, events: seq<Event>)
    requires Inv(s) && !s.alive && Run(s, events).Some?
    ensures |events| <= StepsLeft(s) + Weigh(Arrivals(events), BatchWeight(s) + 1)
    decreases |events|
  {
    if events == [] {
    } else {
      var t := FirstStep(s, events);
      ShutdownBounded(t, events[1..]);
      ArrivalsWeigh(events, BatchWeight(s) + 1);
    }
  }

  /** With the flag down the listener is never stuck: some step is possible until the end. */
  lemma ShutdownProgress(n: nat, s: State) returns (e: Event)
    requires Reachable(n, s) && !s.alive && !Final(s)
    ensures !e.Arrive? && Enabled(s, e)
  {
    ReachableInv(n, s);
    match s.receiver
    case AtCheck => e := ReceiverCheck;
    case Polling => e := PollLost;
    case Answered(_) => e := AnswerRead;
    case Putting(_) => e := Put;
    case Stopped =>
      var i :| 0 <= i < |s.workers| && !s.workers[i].Exited?;
      e := if s.workers[i].Checking? then WorkerCheck(i)
           else if s.workers[i].Taking? then WorkerTake(i)
           else WorkerFinish(i);
  }

  /** A run that nothing but arrivals could extend has ended with every coroutine returned. */
  lemma MaximalRunsFinish(n: nat, s: State)
    requires Reachable(n, s) && !s.alive
    ensures Final(s) <==> forall e :: Enabled(s, e) ==> e.Arrive?
  {
    if !Final(s) {
      var e := ShutdownProgress(n, s);
    } else {
      forall e | Enabled(s, e) ensures e.Arrive? {
        assert forall i :: 0 <= i < |s.workers| ==> s.workers[i] in s.workers;
      }
    }
  }
}
