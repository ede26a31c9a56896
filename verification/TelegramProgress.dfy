/** While the flag is up the listener answers: whatever has arrived can be handled, and how soon. */
module TelegramProgress {
  import opened Prelude
  import opened TelegramListener
  import opened TelegramShutdown

  // One worker, one receiver.

  /** A worker at the head of its loop takes the oldest queued update and handles it, flag up or down. */
  lemma WorkerServes(s: State, i: nat)
    requires i < |s.workers| && s.workers[i].Checking? && s.queue != []
    ensures Run(s, [WorkerCheck(i), WorkerTake(i), WorkerFinish(i)])
         == Some(s.(queue := s.queue[1..], taken := s.taken + [s.queue[0]], handled := s.handled + [s.queue[0]],
                    unfinished := s.unfinished - 1))
  {
    var t := s.(workers := s.workers[i := Taking]);
    var u := s.(workers := s.workers[i := Handling(s.queue[0])], queue := s.queue[1..],
                taken := s.taken + [s.queue[0]]);
    assert t.workers[i := Handling(s.queue[0])] == u.workers && u.workers[i := Checking] == s.workers;
    RunThree(s, WorkerCheck(i), t, WorkerTake(i), u, WorkerFinish(i));
  }

  lemma RunThree(s: State, a: Event, t: State, b: Event, u: State, c: Event)
    requires Enabled(s, a) && Next(s, a) == t && Enabled(t, b) && Next(t, b) == u && Enabled(u, c)
    ensures Run(s, [a, b, c]) == Some(Next(u, c))
  {
    assert [a, b, c][1..] == [b, c] && [b, c][1..] == [c] && [c][1..] == [];
    assert Run(u, [c]) == Some(Next(u, c));
    assert Run(t, [b, c]) == Run(u, [c]);
  }

  /** With the flag up the receiver asks the server, for all that it has not been given. */
  lemma ReceiverAsks(n: nat, s: State)
    requires Reachable(n, s) && s.alive && s.receiver.AtCheck?
    ensures Run(s, [ReceiverCheck]) == Some(s.(receiver := Polling, lastOffset := s.mostRecent))
    ensures s.server == s.enqueued + Pending(s)
  {
    ReachableInv(n, s);
    PendingAfterPrefix(s);
    assert [ReceiverCheck][1..] == [];
    assert s.enqueued == s.server[..|s.enqueued|];
  }

  // All updates.

  /** No coroutine returns while the flag is up. */
  ghost predicate Running(s: State) {
    s.alive ==> !s.receiver.Stopped? && forall w :: w in s.workers ==> !w.Exited?
  }

  lemma NextRunning(s: State, e: Event)
    requires Enabled(s, e) && Running(s)
    ensures Running(Next(s, e))
  {
    var t := Next(s, e);
    if t.alive {
      forall k | 0 <= k < |t.workers| ensures !t.workers[k].Exited? {
        assert s.workers[k] in s.workers;
      }
    }
  }

  lemma {:induction false} RunRunning(s: State, events: seq<Event>)
    requires Running(s)
    ensures Run(s, events).Some? ==> Running(Run(s, events).value)
    decreases |events|
  {
    if events == [] {
    } else if Enabled(s, events[0]) {
      NextRunning(s, events[0]);
      RunRunning(Next(s, events[0]), events[1..]);
    }
  }

  lemma ReachableRunning(n: nat, s: State)
    requires Reachable(n, s)
    ensures Running(s)
  {
    var events :| Run(Init(n), events) == Some(s);
    RunRunning(Init(n), events);
  }

  /** Steps of the listener with an answering server: nothing arrives or is lost, the flag stays up. */
  predicate Own(e: Event) {
    !e.Arrive? && !e.Terminate? && !e.PollLost? && !e.AnswerLost?
  }

  /** Updates of the server that have not been put. */
  function Unput(s: State): int {
    |s.server| - |s.enqueued|
  }

  /** To fetch p updates: ask, be answered, read, and put each. */
  function Fetching(p: int): int {
    if p <= 0 then 0 else 3 + 5 * p
  }

  function ReceiverToDo(s: State): int {
    match s.receiver
    case Stopped => 0
    case AtCheck => Fetching(Unput(s))
    case Polling => if Unput(s) <= 0 then 0 else Fetching(Unput(s)) - 1
    case Answered(batch) => 1 + 5 * |batch| + Fetching(Unput(s) - |batch|)
    case Putting(batch) => 5 * |batch| + Fetching(Unput(s) - |batch|)
  }

  /** A bound on the steps until all that has arrived is handled. */
  function ToDo(s: State): int {
    ReceiverToDo(s) + 4 * |s.queue| + Ranks(s.workers, false)
  }

  lemma ToDoNatural(s: State)
    requires InOrder(s)
    ensures ToDo(s) >= 0
  {
  }

  /** Everything that has arrived is handled. */
  ghost predicate AllHandled(s: State) {
    multiset(s.handled) == multiset(s.server)
  }

  lemma DoneWhen(s: State)
    requires Inv(s) && Unput(s) == 0 && s.queue == [] && forall w :: w in s.workers ==> !w.Handling?
    ensures AllHandled(s)
  {
    assert s.enqueued == s.server;
    InFlightNone(s.workers);
    assert s.taken == s.enqueued;
  }

  lemma WorkerCloser(s: State, e: Event)
    requires Enabled(s, e) && s.alive
    requires e.WorkerCheck? || e.WorkerFinish? || (e.WorkerTake? && s.queue != [])
    ensures ToDo(Next(s, e)) < ToDo(s) && Next(s, e).alive && Next(s, e).server == s.server
  {
    RanksUpdate(s.workers, e.i, Next(s, e).workers[e.i], false);
  }

  /** What the receiver does next, when something has not been put. */
  lemma ReceiverCloser(s: State) returns (e: Event)
    requires InOrder(s) && s.alive && !s.receiver.Stopped? && Unput(s) > 0
    ensures Own(e) && Enabled(s, e)
    ensures ToDo(Next(s, e)) < ToDo(s) && Next(s, e).alive && Next(s, e).server == s.server
  {
    match s.receiver
    case AtCheck => e := ReceiverCheck;
    case Polling =>
      PendingAfterPrefix(s);
      e := PollServed(|Pending(s)|);
      assert Next(s, e).receiver.batch == Pending(s);
    case Answered(_) => e := AnswerRead;
    case Putting(_) => e := Put;
  }

  /** While something that has arrived is not handled, some step brings that nearer. */
  lemma SomeStepCloser(n: nat, s: State) returns (e: Event)
    requires n >= 1 && Reachable(n, s) && s.alive && !AllHandled(s)
    ensures Own(e) && Enabled(s, e)
    ensures ToDo(Next(s, e)) < ToDo(s) && Next(s, e).alive && Next(s, e).server == s.server
  {
    ReachableInv(n, s);
    ReachableRunning(n, s);
    if i :| 0 <= i < |s.workers| && s.workers[i].Handling? {
      e := WorkerFinish(i);
      WorkerCloser(s, e);
    } else if s.queue != [] {
      assert s.workers[0] in s.workers;
      e := if s.workers[0].Checking? then WorkerCheck(0) else WorkerTake(0);
      WorkerCloser(s, e);
    } else {
      if Unput(s) == 0 {
        DoneWhen(s);
      }
      e := ReceiverCloser(s);
    }
  }

  /**
   From every state that the listener can be in with the flag up, with at least one worker and
   a server that answers: its own steps, a bounded number of them, lead to where all that has
   arrived is handled.
   */
  lemma {:induction false} EverythingIsHandled(n: nat, s: State) returns (events: seq<Event>)
    requires n >= 1 && Reachable(n, s) && s.alive
    ensures (forall e :: e in events ==> Own(e)) && |events| <= ToDo(s) && Run(s, events).Some?
    ensures var t := Run(s, events).value; t.alive && t.server == s.server && AllHandled(t)
    decreases ToDo(s)
  {
    ReachableInv(n, s);
    ToDoNatural(s);
    if AllHandled(s) {
      events := [];
    } else {
      var e := SomeStepCloser(n, s);
      ReachNext(n, s, e);
      ReachableInv(n, Next(s, e));
      ToDoNatural(Next(s, e));
      var rest := EverythingIsHandled(n, Next(s, e));
      events := [e] + rest;
      assert events[1..] == rest;
    }
  }

  /** The listener's own steps can lead to where all that has arrived is handled. */
  ghost predicate Responsive(s: State) {
    exists events :: (forall e :: e in events ==> Own(e)) && Run(s, events).Some? && AllHandled(Run(s, events).value)
  }

  lemma {:induction false} NobodyHandles(s: State, events: seq<Event>)
    requires s.workers == []
    ensures Run(s, events).Some? ==> Run(s, events).value.handled == s.handled
    decreases |events|
  {
    if events == [] {
    } else if Enabled(s, events[0]) {
      NobodyHandles(Next(s, events[0]), events[1..]);
    }
  }

  lemma {:induction false} ServerKept(s: State, events: seq<Event>)
    requires forall e :: e in events ==> Own(e)
    ensures Run(s, events).Some? ==> Run(s, events).value.server == s.server
    decreases |events|
  {
    if events == [] {
    } else if Enabled(s, events[0]) {
      assert Own(events[0]);
      ServerKept(Next(s, events[0]), events[1..]);
    }
  }

  lemma NobodyResponds() returns (s: State)
    ensures Reachable(0, s) && s.alive && !Responsive(s)
  {
    s := Init(0);
    assert Run(s, []) == Some(s);
    ReachNext(0, s, Arrive(1));
    s := Next(s, Arrive(1));
    forall events | (forall e :: e in events ==> Own(e)) && Run(s, events).Some?
      ensures !AllHandled(Run(s, events).value)
    {
      NobodyHandles(s, events);
      ServerKept(s, events);
      assert multiset([1])[1] == 1;
    }
  }

  /** The listener responds in every state with the flag up if and only if there is a worker. */
  lemma ResponsiveIff(n: nat)
    ensures (forall s :: Reachable(n, s) && s.alive ==> Responsive(s)) <==> n >= 1
  {
    if n >= 1 {
      forall s | Reachable(n, s) && s.alive ensures Responsive(s) {
        var events := EverythingIsHandled(n, s);
      }
    } else {
      var s := NobodyResponds();
    }
  }
}
