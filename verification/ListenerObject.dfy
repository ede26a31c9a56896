/**
 The listener as the object it is: fields that its two coroutines update. Each method is what
 one coroutine does between two suspension points, and is one or more events of the protocol.
 */
module ListenerObject {
  import opened Prelude
  import opened TelegramListener
  import opened TelegramShutdown

  class Listener {
    var alive: bool
    var mostRecent: nat
    var queue: seq<nat>
    var unfinished: int
    var receiver: Receiver            // where `recv` stands
    var workers: seq<Worker>          // where each `processQueue` stands
    ghost var server: seq<nat>
    ghost var confirmed: nat
    ghost var enqueued: seq<nat>
    ghost var taken: seq<nat>
    ghost var handled: seq<nat>
    ghost var lastOffset: nat

    /** The protocol state that the object is in. */
    ghost function Now(): State
      reads this
    {
      State(alive, server, confirmed, mostRecent, receiver, queue, unfinished, workers,
            enqueued, taken, handled, lastOffset)
    }

    /** Some run of the protocol leads to where the object is. */
    ghost predicate Valid()
      reads this
    {
      Reachable(|workers|, Now())
    }

    /** `run`: start n workers and the receiver. */
    constructor Run(n: nat)
      ensures Valid() && Now() == Init(n)
    {
      alive, mostRecent, queue, unfinished := true, 0, [], 0;
      receiver, workers := AtCheck, seq(n, i => Checking);
      server, confirmed, lastOffset := [], 0, 0;
      enqueued, taken, handled := [], [], [];
      new;
      StartReachable(n);
    }

    // What happens outside the two coroutines.

    /** The server is given an update. */
    ghost method Arrive(id: nat)
      requires Valid() && (server == [] || server[|server| - 1] < id)
      modifies `server
      ensures Valid() && Now() == Next(old(Now()), TelegramListener.Arrive(id))
    {
      ReachNext(|workers|, Now(), TelegramListener.Arrive(id));
      server := server + [id];
    }

    /** Another task lowers the flag. */
    method Terminate()
      requires Valid() && alive
      modifies `alive
      ensures Valid() && Now() == Next(old(Now()), TelegramListener.Terminate)
    {
      ReachNext(|workers|, Now(), TelegramListener.Terminate);
      alive := false;
    }

    /**
     The server answers a request, with the first updates that it may still be asked for. It
     forgets what lies below the request's offset, all of which has been put.
     */
    method Served(batch: seq<nat>)
      requires Valid() && receiver.Polling? && batch <= Pending(Now())
      modifies `receiver, `confirmed
      ensures Valid() && Now() == Next(old(Now()), PollServed(|batch|))
      ensures receiver == Answered(batch) && enqueued + batch <= server
      ensures forall id :: id in server && id < confirmed ==> id in enqueued
    {
      ReachNext(|workers|, Now(), PollServed(|batch|));
      ServedMeans(Now(), |batch|);
      assert batch == Pending(Now())[..|batch|];
      receiver := Answered(batch);
      confirmed := if mostRecent > confirmed then mostRecent else confirmed;
    }

    /** A request or its answer is lost. The next request asks for the same updates again. */
    method RequestFailed()
      requires Valid() && (receiver.Polling? || receiver.Answered?)
      modifies `receiver
      ensures Valid() && Now() == Next(old(Now()), if old(receiver).Polling? then PollLost else AnswerLost)
      ensures mostRecent == old(mostRecent) && server == enqueued + Pending(Now())
    {
      ghost var e := if receiver.Polling? then PollLost else AnswerLost;
      ReachNext(|workers|, Now(), e);
      OffsetIsExact(Next(Now(), e));
      receiver := AtCheck;
    }

    // The two coroutines.

    /**
     The head of the receiving loop: leave it, or send a request. Its offset asks for exactly
     the updates that have not been put, so what the request confirms has been put.
     */
    method ReceiveOrLeave()
      requires Valid() && receiver.AtCheck?
      modifies `receiver, `lastOffset
      ensures Valid() && Now() == Next(old(Now()), ReceiverCheck)
      ensures receiver == if old(alive) then Polling else Stopped
      ensures receiver.Polling? ==> server == enqueued + Pending(Now())
      ensures receiver.Polling? ==> forall id :: id in server && id < lastOffset ==> id in enqueued
    {
      ReachNext(|workers|, Now(), ReceiverCheck);
      OffsetIsExact(Now());
      if alive {
        receiver := Polling;
        lastOffset := mostRecent;
      } else {
        receiver := Stopped;
      }
    }

    /**
     An answer has been read: move the offset past it, then put its updates one by one. What
     has been put stays what the server was given, without a gap.
     */
    method PutAnswer()
      requires Valid() && receiver.Answered?
      modifies `receiver, `mostRecent, `queue, `unfinished, `enqueued
      ensures Valid() && Now() == AnswerDone(old(Now()))
      ensures enqueued == old(enqueued) + old(receiver.batch) && enqueued <= server
    {
      var batch := receiver.batch;
      ghost var start := Now();
      if batch == [] {
        receiver := AtCheck;
      } else {
        mostRecent := batch[|batch| - 1] + 1;
        receiver := Putting(batch);
        var i := 0;
        while i < |batch|
          invariant 0 <= i <= |batch| && receiver == if i == |batch| then AtCheck else Putting(batch[i..])
          invariant queue == start.queue + batch[..i] && enqueued == start.enqueued + batch[..i]
          invariant unfinished == start.unfinished + i && mostRecent == After(batch)
        {
          MovedOne(start.queue, batch, i);
          MovedOne(start.enqueued, batch, i);
          queue := queue + [batch[i]];
          unfinished := unfinished + 1;
          enqueued := enqueued + [batch[i]];
          i := i + 1;
          receiver := if i == |batch| then AtCheck else Putting(batch[i..]);
        }
      }
      AnswerDoneReachable(start);
    }

    /**
     The head of worker i's loop: the worker goes on to take an update unless the flag is down
     and nothing is queued. When it leaves, every update that was put is handled or in another
     worker's hands, also every one that the server regards as confirmed.
     */
    method WorkOrLeave(i: nat)
      requires Valid() && i < |workers| && workers[i].Checking?
      modifies `workers
      ensures Valid() && Now() == Next(old(Now()), WorkerCheck(i))
      ensures workers == old(workers)[i := if old(alive) || taken != enqueued then Taking else Exited]
      ensures workers[i].Exited? ==> multiset(enqueued) == multiset(handled) + InFlight(workers)
      ensures workers[i].Exited? ==> forall id :: id in server && id < confirmed ==> id in taken
    {
      ReachNext(|workers|, Now(), WorkerCheck(i));
      EmptyQueue(Next(Now(), WorkerCheck(i)));
      if alive || queue != [] {
        workers := workers[i := Taking];
      } else {
        workers := workers[i := Exited];
      }
    }

    /**
     Worker i takes an update, or finds the queue empty and goes round again. Updates are taken
     in the order in which the server was given them, each once and none left out.
     */
    method TakeUpdate(i: nat)
      requires Valid() && i < |workers| && workers[i].Taking?
      modifies `workers, `queue, `taken
      ensures Valid() && Now() == Next(old(Now()), WorkerTake(i))
      ensures old(taken) == enqueued ==> workers[i].Checking? && taken == old(taken)
      ensures old(taken) != enqueued ==>
        && |old(taken)| < |server| && taken == old(taken) + [server[|old(taken)|]] <= server
        && workers[i] == Handling(server[|old(taken)|])
    {
      ReachNext(|workers|, Now(), WorkerTake(i));
      TakenInOrder(Now());
      if queue == [] {
        workers := workers[i := Checking];
      } else {
        var update := queue[0];
        queue := queue[1..];
        taken := taken + [update];
        workers := workers[i := Handling(update)];
      }
    }

    /**
     The handler of worker i has returned or raised. Its update had not been handled before, and
     `join` on the queue still waits for exactly the updates that were put and not handled.
     */
    method UpdateDone(i: nat)
      requires Valid() && i < |workers| && workers[i].Handling?
      modifies `workers, `unfinished, `handled
      ensures Valid() && Now() == Next(old(Now()), WorkerFinish(i))
      ensures handled == old(handled) + [old(workers[i].id)] && old(workers[i].id) !in old(handled)
      ensures workers == old(workers)[i := Checking]
      ensures unfinished == |enqueued| - |handled|
    {
      ReachNext(|workers|, Now(), WorkerFinish(i));
      FinishMeans(Now(), i);
      handled := handled + [workers[i].id];
      unfinished := unfinished - 1;
      workers := workers[i := Checking];
    }
  }

  lemma StartReachable(n: nat)
    ensures Reachable(n, Init(n))
  {
    assert TelegramListener.Run(Init(n), []) == Some(Init(n));
  }

  lemma {:induction false} ReachRun(s: State, events: seq<Event>)
    requires Reachable(|s.workers|, s) && TelegramListener.Run(s, events).Some?
    ensures Reachable(|s.workers|, TelegramListener.Run(s, events).value)
    decreases |events|
  {
    if events == [] {
    } else {
      ReachNext(|s.workers|, s, events[0]);
      ReachRun(Next(s, events[0]), events[1..]);
    }
  }

  /** Between polls the server's updates are those put and those still to be asked for. */
  lemma OffsetIsExact(s: State)
    requires Reachable(|s.workers|, s) && s.receiver.AtCheck?
    ensures s.server == s.enqueued + Pending(s)
    ensures forall id :: id in s.server && id < s.mostRecent ==> id in s.enqueued
  {
    ReachableInv(|s.workers|, s);
    var n := |s.enqueued|;
    PendingAfterPrefix(s);
    assert s.server[..n] == s.enqueued;
    forall id | id in s.server && id < s.mostRecent ensures id in s.enqueued {
      BelowPrefix(s.server, s.enqueued, id);
    }
  }

  lemma BelowPrefix(ids: seq<nat>, front: seq<nat>, id: nat)
    requires Increasing(ids) && front <= ids && id in ids && id < After(front)
    ensures id in front
  {
    var n := |front|;
    var k :| 0 <= k < |ids| && ids[k] == id;
    assert ids[n - 1] == front[n - 1];
    IncreasingIndex(ids, n - 1, k);
    assert front[k] == id;
  }

  lemma ServedMeans(s: State, n: nat)
    requires Reachable(|s.workers|, s) && Enabled(s, PollServed(n))
    ensures var t := Next(s, PollServed(n));
      && Pending(s)[..n] <= Pending(s) && s.enqueued + Pending(s)[..n] <= s.server
      && forall id :: id in t.server && id < t.confirmed ==> id in t.enqueued
  {
    var t := Next(s, PollServed(n));
    ReachNext(|s.workers|, s, PollServed(n));
    ReachableInv(|s.workers|, t);
    forall id | id in t.server && id < t.confirmed ensures id in t.enqueued {
      ConfirmedWasEnqueued(t, id);
    }
  }

  lemma EmptyQueue(s: State)
    requires Reachable(|s.workers|, s)
    ensures s.queue == [] <==> s.taken == s.enqueued
    ensures s.queue == [] ==> multiset(s.enqueued) == multiset(s.handled) + InFlight(s.workers)
    ensures s.queue == [] ==> forall id :: id in s.server && id < s.confirmed ==> id in s.taken
  {
    ReachableInv(|s.workers|, s);
    HandledOnce(s);
    forall id | id in s.server && id < s.confirmed ensures id in s.enqueued {
      ConfirmedWasEnqueued(s, id);
    }
    assert |s.enqueued| == |s.taken| + |s.queue|;
  }

  lemma TakenInOrder(s: State)
    requires Reachable(|s.workers|, s)
    ensures s.queue == [] <==> s.taken == s.enqueued
    ensures s.queue != [] ==>
      |s.taken| < |s.server| && s.queue[0] == s.server[|s.taken|] && s.taken + [s.queue[0]] <= s.server
  {
    ReachableInv(|s.workers|, s);
    var n := |s.taken|;
    assert |s.enqueued| == n + |s.queue|;
    if s.queue != [] { assert s.enqueued[n] == s.queue[0]; }
  }

  lemma FinishMeans(s: State, i: nat)
    requires Reachable(|s.workers|, s) && Enabled(s, WorkerFinish(i))
    ensures var t := Next(s, WorkerFinish(i));
      s.workers[i].id !in s.handled && t.unfinished == |t.enqueued| - |t.handled|
  {
    ReachableInv(|s.workers|, s);
    var t := Next(s, WorkerFinish(i));
    NextInv(s, WorkerFinish(i));
    HandledOnce(t);
    OnlyOnce(s.handled, s.workers[i].id);
    assert multiset(t.handled)[s.workers[i].id] <= 1;
  }

  /** What occurs at most once in an extended list was not there before. */
  lemma OnlyOnce(ids: seq<nat>, id: nat)
    ensures multiset(ids + [id])[id] <= 1 ==> id !in ids
  {
    assert multiset(ids + [id]) == multiset(ids) + multiset{id};
    assert id in ids ==> id in multiset(ids);
  }

  lemma AnswerDoneReachable(s: State)
    requires Reachable(|s.workers|, s) && s.receiver.Answered?
    ensures Reachable(|s.workers|, AnswerDone(s))
    ensures AnswerDone(s).enqueued == s.enqueued + s.receiver.batch <= s.server
  {
    ReachableInv(|s.workers|, s);
    AnswerDoneIsRun(s);
    ReachRun(s, [AnswerRead] + Puts(|s.receiver.batch|));
    RunInv(s, [AnswerRead] + Puts(|s.receiver.batch|));
    assert s.receiver.batch[..|s.receiver.batch|] == s.receiver.batch;
  }

  lemma MovedOne(s: seq<nat>, batch: seq<nat>, i: nat)
    requires i < |batch|
    ensures s + batch[..i] + [batch[i]] == s + batch[..i + 1]
  {
  }

  /** n updates are put. */
  ghost function Puts(n: nat): (events: seq<Event>)
    ensures |events| == n
  {
    seq(n, i => Put)
  }

  lemma AnswerReadRuns(s: State)
    requires Enabled(s, AnswerRead)
    ensures TelegramListener.Run(s, [AnswerRead] + Puts(0)) == Some(Next(s, AnswerRead))
  {
    assert ([AnswerRead] + Puts(0))[1..] == [];
  }

  /** The state after an answer has been read and i of its updates have been put. */
  ghost function AfterPuts(s: State, i: nat): State
    requires s.receiver.Answered? && s.receiver.batch != [] && i <= |s.receiver.batch|
  {
    var batch := s.receiver.batch;
    s.(mostRecent := After(batch),
       receiver := if i == |batch| then AtCheck else Putting(batch[i..]),
       queue := s.queue + batch[..i],
       enqueued := s.enqueued + batch[..i],
       unfinished := s.unfinished + i)
  }

  /** The state after an answer has been dealt with. */
  ghost function AnswerDone(s: State): State
    requires s.receiver.Answered?
  {
    if s.receiver.batch == [] then s.(receiver := AtCheck) else AfterPuts(s, |s.receiver.batch|)
  }

  lemma AfterNoPuts(s: State)
    requires s.receiver.Answered? && s.receiver.batch != []
    ensures AfterPuts(s, 0) == Next(s, AnswerRead)
  {
    var batch := s.receiver.batch;
    assert batch[0..] == batch && s.queue + batch[..0] == s.queue && s.enqueued + batch[..0] == s.enqueued;
  }

  /** Dealing with an answer is a run: it is read, and each of its updates is put. */
  lemma AnswerDoneIsRun(s: State)
    requires s.receiver.Answered?
    ensures TelegramListener.Run(s, [AnswerRead] + Puts(|s.receiver.batch|)) == Some(AnswerDone(s))
  {
    if s.receiver.batch == [] {
      AnswerReadRuns(s);
    } else {
      PutsRun(s, |s.receiver.batch|);
    }
  }

  lemma AfterPutsNext(s: State, i: nat)
    requires s.receiver.Answered? && i < |s.receiver.batch|
    ensures Enabled(AfterPuts(s, i), Put) && Next(AfterPuts(s, i), Put) == AfterPuts(s, i + 1)
  {
    var batch := s.receiver.batch;
    MovedOne(s.queue, batch, i);
    MovedOne(s.enqueued, batch, i);
    assert batch[i..][1..] == batch[i + 1..];
  }

  /** Reading the answer and putting i of its updates is a run of the protocol. */
  lemma {:induction false} PutsRun(s: State, i: nat)
    requires s.receiver.Answered? && s.receiver.batch != [] && i <= |s.receiver.batch|
    ensures TelegramListener.Run(s, [AnswerRead] + Puts(i)) == Some(AfterPuts(s, i))
    decreases i
  {
    AnswerReadRuns(s);
    if i == 0 {
      AfterNoPuts(s);
    } else {
      PutsRun(s, i - 1);
      AfterPutsNext(s, i - 1);
      RunAppend(s, [AnswerRead] + Puts(i - 1), Put);
      assert [AnswerRead] + Puts(i - 1) + [Put] == [AnswerRead] + Puts(i);
    }
  }
}
