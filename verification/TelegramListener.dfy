/**
 The listener as a protocol: a receiver that polls the update server, an unbounded queue,
 and workers that drain it, interleaved in every possible way until a stop flag goes down.
 */
module TelegramListener {
  import opened Prelude

  /** The receiving coroutine, by the point it has reached in its loop. */
  datatype Receiver =
    | AtCheck                      // about to read the flag
    | Polling                      // request sent, not yet at the server
    | Answered(batch: seq<nat>)    // the server has answered, the answer is on its way
    | Putting(batch: seq<nat>)     // enqueueing what is left of a batch
    | Stopped

  /** A queue-draining coroutine, by the point it has reached in its loop. */
  datatype Worker = Checking | Taking | Handling(id: nat) | Exited

  datatype State = State(
    alive: bool,              // Terminated.alive
    server: seq<nat>,         // ids of the updates the server holds, in order of arrival
    confirmed: nat,           // the server has forgotten every id below this
    mostRecent: nat,          // the offset of the next poll
    receiver: Receiver,
    queue: seq<nat>,
    unfinished: int,          // puts minus task_done calls
    workers: seq<Worker>,
    // history, read by no step
    enqueued: seq<nat>,       // every id ever put
    taken: seq<nat>,          // every id ever removed from the queue
    handled: seq<nat>,        // every id whose handler returned or failed
    lastOffset: nat)          // the offset of the poll started last

  datatype Event =
    | Arrive(id: nat)
    | Terminate
    | ReceiverCheck
    | PollLost
    | PollServed(n: nat)
    | AnswerLost
    | AnswerRead
    | Put
    | WorkerCheck(i: nat)
    | WorkerTake(i: nat)
    | WorkerFinish(i: nat)

  function Init(n: nat): State {
    State(true, [], 0, 0, AtCheck, [], 0, seq(n, i => Checking), [], [], [], 0)
  }

  /** The index of the first id that is not below the offset. */
  function FirstAtLeast(ids: seq<nat>, offset: nat): (i: nat)
    ensures i <= |ids| && (forall j :: 0 <= j < i ==> ids[j] < offset)
    ensures i < |ids| ==> ids[i] >= offset
  {
    if ids == [] || ids[0] >= offset then 0 else 1 + FirstAtLeast(ids[1..], offset)
  }

  /** The updates the server may still be asked for. */
  function Pending(s: State): seq<nat> {
    s.server[FirstAtLeast(s.server, s.mostRecent)..]
  }

  predicate Enabled(s: State, e: Event) {
    match e
    case Arrive(id) => s.server == [] || s.server[|s.server| - 1] < id
    case Terminate => s.alive
    case ReceiverCheck => s.receiver.AtCheck?
    case PollLost => s.receiver.Polling?
    case PollServed(n) => s.receiver.Polling? && n <= |Pending(s)|
    case AnswerLost => s.receiver.Answered?
    case AnswerRead => s.receiver.Answered?
    case Put => s.receiver.Putting? && s.receiver.batch != []
    case WorkerCheck(i) => i < |s.workers| && s.workers[i].Checking?
    case WorkerTake(i) => i < |s.workers| && s.workers[i].Taking?
    case WorkerFinish(i) => i < |s.workers| && s.workers[i].Handling?
  }

  function Next(s: State, e: Event): State
    requires Enabled(s, e)
  {
    match e
    case Arrive(id) => s.(server := s.server + [id])
    case Terminate => s.(alive := false)
    case ReceiverCheck =>
      if s.alive then s.(receiver := Polling, lastOffset := s.mostRecent)
      else s.(receiver := Stopped)
    case PollLost => s.(receiver := AtCheck)
    case PollServed(n) =>
      s.(receiver := Answered(Pending(s)[..n]),
         confirmed := if s.mostRecent > s.confirmed then s.mostRecent else s.confirmed)
    case AnswerLost => s.(receiver := AtCheck)
    case AnswerRead =>
      var batch := s.receiver.batch;
      if batch == [] then s.(receiver := AtCheck)
      else s.(mostRecent := batch[|batch| - 1] + 1, receiver := Putting(batch))
    case Put =>
      var batch := s.receiver.batch;
      s.(queue := s.queue + [batch[0]],
         enqueued := s.enqueued + [batch[0]],
         unfinished := s.unfinished + 1,
         receiver := if |batch| == 1 then AtCheck else Putting(batch[1..]))
    case WorkerCheck(i) =>
      s.(workers := s.workers[i := if s.alive || s.queue != [] then Taking else Exited])
    case WorkerTake(i) =>
      if s.queue == [] then s.(workers := s.workers[i := Checking])
      else s.(workers := s.workers[i := Handling(s.queue[0])],
              queue := s.queue[1..],
              taken := s.taken + [s.queue[0]])
    case WorkerFinish(i) =>
      s.(workers := s.workers[i := Checking],
         handled := s.handled + [s.workers[i].id],
         unfinished := s.unfinished - 1)
  }

  /** The state after a run, if every event of it was possible. */
  function Run(s: State, events: seq<Event>): Option<State>
    decreases |events|
  {
    if events == [] then Some(s)
    else if Enabled(s, events[0]) then Run(Next(s, events[0]), events[1..])
    else None
  }

  ghost predicate Reachable(n: nat, s: State) {
    exists events :: Run(Init(n), events) == Some(s)
  }

  /** The updates that workers are handling. */
  function InFlight(workers: seq<Worker>): multiset<nat> {
    if workers == [] then multiset{}
    else Held(workers[0]) + InFlight(workers[1..])
  }

  function Held(w: Worker): multiset<nat> {
    if w.Handling? then multiset{w.id} else multiset{}
  }

  lemma {:induction false} InFlightUpdate(ws: seq<Worker>, i: nat, w: Worker)
    requires i < |ws|
    ensures InFlight(ws[i := w]) + Held(ws[i]) == InFlight(ws) + Held(w)
  {
    var ws' := ws[i := w];
    if i == 0 {
      assert ws'[1..] == ws[1..];
    } else {
      var rest := ws[1..];
      assert ws'[1..] == rest[i - 1 := w] && ws'[0] == ws[0];
      InFlightUpdate(rest, i - 1, w);
      SumShuffle(Held(ws[0]), InFlight(rest[i - 1 := w]), Held(ws[i]), InFlight(rest), Held(w));
    }
  }

  lemma SumShuffle(h: multiset<nat>, a: multiset<nat>, b: multiset<nat>, c: multiset<nat>, d: multiset<nat>)
    requires a + b == c + d
    ensures (h + a) + b == (h + c) + d
  {
    assert (h + a) + b == h + (a + b) && (h + c) + d == h + (c + d);
  }

  lemma {:induction false} InFlightNone(ws: seq<Worker>)
    requires forall w :: w in ws ==> !w.Handling?
    ensures InFlight(ws) == multiset{}
  {
    if ws == [] {
    } else {
      InFlightNone(ws[1..]);
    }
  }

  ghost predicate Increasing(ids: seq<nat>) {
    forall i, j :: 0 <= i < j < |ids| ==> ids[i] < ids[j]
  }

  /** One past the last id of a sequence, zero if there is none. */
  function After(ids: seq<nat>): nat {
    if ids == [] then 0 else ids[|ids| - 1] + 1
  }

  /** What has been put is a gap-free prefix of what the server was given. */
  ghost predicate InOrder(s: State) {
    && Increasing(s.server)
    && s.enqueued <= s.server
    && (match s.receiver
        case Answered(batch) =>
          s.mostRecent == After(s.enqueued) && s.enqueued + batch <= s.server
        case Putting(batch) =>
          batch != [] && s.mostRecent == After(batch) && s.enqueued + batch <= s.server
        case _ => s.mostRecent == After(s.enqueued))
  }

  /** Every id put is queued, in a worker's hands or handled, and counted accordingly. */
  ghost predicate Conserved(s: State) {
    && s.enqueued == s.taken + s.queue
    && multiset(s.taken) == multiset(s.handled) + InFlight(s.workers)
    && s.unfinished == |s.queue| + |InFlight(s.workers)|
  }

  /** Only ids below the offset of the last poll are confirmed, and all of those were put. */
  ghost predicate ConfirmedWerePut(s: State) {
    && s.confirmed <= s.lastOffset <= After(s.enqueued)
    && (s.receiver.Polling? ==> s.lastOffset == s.mostRecent)
  }

  /** Once a worker has left, the queue holds only ids from the last poll. */
  ghost predicate LeftoversAreNew(s: State) {
    (exists w :: w in s.workers && w.Exited?) ==>
      !s.alive && forall id :: id in s.queue ==> id >= s.lastOffset
  }

  ghost predicate Inv(s: State) {
    InOrder(s) && Conserved(s) && ConfirmedWerePut(s) && LeftoversAreNew(s)
  }

  lemma InitInv(n: nat)
    ensures Inv(Init(n))
  {
    InFlightNone(Init(n).workers);
  }

  lemma {:induction false} FirstAtLeastIs(ids: seq<nat>, offset: nat, n: nat)
    requires n <= |ids| && forall j :: 0 <= j < n ==> ids[j] < offset
    requires n < |ids| ==> ids[n] >= offset
    ensures FirstAtLeast(ids, offset) == n
    decreases n
  {
    if n == 0 {
    } else {
      FirstAtLeastIs(ids[1..], offset, n - 1);
    }
  }

  /** With an increasing server, the first id not below After(ids) follows the prefix ids. */
  lemma PendingAfterPrefix(s: State)
    requires Increasing(s.server) && s.enqueued <= s.server && s.mostRecent == After(s.enqueued)
    ensures FirstAtLeast(s.server, s.mostRecent) == |s.enqueued|
  {
    var n := |s.enqueued|;
    if n > 0 {
      assert s.enqueued[n - 1] == s.server[n - 1];
      assert n < |s.server| ==> s.server[n - 1] < s.server[n];
    }
    FirstAtLeastIs(s.server, s.mostRecent, n);
  }

  lemma PrefixMove(put: seq<nat>, batch: seq<nat>, server: seq<nat>)
    requires put + batch <= server && batch != []
    ensures (put + [batch[0]]) + batch[1..] <= server && put + [batch[0]] <= server
    ensures server[|put|] == batch[0]
  {
    assert (put + [batch[0]]) + batch[1..] == put + batch;
    assert server[|put|] == (put + batch)[|put|];
  }

  lemma PutInOrder(s: State)
    requires Enabled(s, Put) && InOrder(s)
    ensures InOrder(Next(s, Put))
  {
    PrefixMove(s.enqueued, s.receiver.batch, s.server);
  }

  lemma PollServedInOrder(s: State, n: nat)
    requires Enabled(s, PollServed(n)) && InOrder(s)
    ensures InOrder(Next(s, PollServed(n)))
  {
    PendingAfterPrefix(s);
    assert s.enqueued + Pending(s)[..n] == s.server[..|s.enqueued| + n];
  }

  lemma ArriveInOrder(s: State, id: nat)
    requires Enabled(s, Arrive(id)) && InOrder(s)
    ensures InOrder(Next(s, Arrive(id)))
  {
    var t := Next(s, Arrive(id));
    forall i, j | 0 <= i < j < |t.server| ensures t.server[i] < t.server[j] {
      if j == |s.server| && i < |s.server| - 1 {
        assert s.server[i] < s.server[|s.server| - 1];
      }
    }
  }

  lemma NextInOrder(s: State, e: Event)
    requires Enabled(s, e) && InOrder(s)
    ensures InOrder(Next(s, e))
  {
    match e
    case Arrive(id) => ArriveInOrder(s, id);
    case PollServed(n) => PollServedInOrder(s, n);
    case Put => PutInOrder(s);
    case _ =>
  }

  /** How a worker's step changes what is in flight. */
  lemma InFlightChange(ws: seq<Worker>, i: nat, w: Worker)
    requires i < |ws|
    ensures !ws[i].Handling? && !w.Handling? ==> InFlight(ws[i := w]) == InFlight(ws)
    ensures !ws[i].Handling? && w.Handling? ==> InFlight(ws[i := w]) == InFlight(ws) + multiset{w.id}
    ensures ws[i].Handling? && !w.Handling? ==> InFlight(ws) == InFlight(ws[i := w]) + multiset{ws[i].id}
  {
    InFlightUpdate(ws, i, w);
    assert InFlight(ws) + multiset{} == InFlight(ws);
    assert InFlight(ws[i := w]) + multiset{} == InFlight(ws[i := w]);
  }

  lemma TakeConserved(s: State, i: nat)
    requires Enabled(s, WorkerTake(i)) && Conserved(s) && s.queue != []
    ensures Conserved(Next(s, WorkerTake(i)))
  {
    var t, id := Next(s, WorkerTake(i)), s.queue[0];
    assert t.enqueued == t.taken + t.queue by {
      assert s.queue == [id] + t.queue;
    }
    InFlightChange(s.workers, i, Handling(id));
    var before, now := InFlight(s.workers), InFlight(t.workers);
    assert multiset(t.taken) == multiset(s.taken) + multiset{id};
    assert (multiset(s.handled) + before) + multiset{id} == multiset(s.handled) + now;
  }

  lemma FinishConserved(s: State, i: nat)
    requires Enabled(s, WorkerFinish(i)) && Conserved(s)
    ensures Conserved(Next(s, WorkerFinish(i)))
  {
    InFlightChange(s.workers, i, Checking);
  }

  lemma PutConserved(s: State)
    requires Enabled(s, Put) && Conserved(s)
    ensures Conserved(Next(s, Put))
  {
    assert s.taken + (s.queue + [s.receiver.batch[0]]) == Next(s, Put).enqueued;
  }

  lemma NextConserved(s: State, e: Event)
    requires Enabled(s, e) && Conserved(s)
    ensures Conserved(Next(s, e))
  {
    if e.WorkerTake? && s.queue != [] {
      TakeConserved(s, e.i);
    } else if e.WorkerCheck? || e.WorkerTake? {
      InFlightChange(s.workers, e.i, Next(s, e).workers[e.i]);
    } else if e.WorkerFinish? {
      FinishConserved(s, e.i);
    } else if e.Put? {
      PutConserved(s);
    }
  }

  /** What is put next lies above everything put before. */
  lemma PutIsAbove(s: State)
    requires Enabled(s, Put) && InOrder(s)
    ensures s.receiver.batch[0] >= After(s.enqueued)
  {
    var n := |s.enqueued|;
    PrefixMove(s.enqueued, s.receiver.batch, s.server);
    if n > 0 {
      assert s.enqueued[n - 1] == s.server[n - 1] < s.server[n];
    }
  }

  lemma NextConfirmedWerePut(s: State, e: Event)
    requires Enabled(s, e) && InOrder(s) && ConfirmedWerePut(s)
    ensures ConfirmedWerePut(Next(s, e))
  {
    if e.Put? {
      PutIsAbove(s);
    }
  }

  lemma NextLeftoversAreNew(s: State, e: Event)
    requires Enabled(s, e) && InOrder(s) && ConfirmedWerePut(s) && LeftoversAreNew(s)
    ensures LeftoversAreNew(Next(s, e))
  {
    var t := Next(s, e);
    if exists w :: w in t.workers && w.Exited? {
      var k :| 0 <= k < |t.workers| && t.workers[k].Exited?;
      if e.WorkerCheck? && e.i == k {
        assert !s.alive && s.queue == [];
      } else {
        assert s.workers[k] in s.workers && s.workers[k].Exited?;
        if e.Put? {
          PutIsAbove(s);
        }
        forall id | id in t.queue ensures id >= t.lastOffset {
          assert id in s.queue || (e.Put? && id == s.receiver.batch[0]);
        }
      }
    }
  }

  lemma NextInv(s: State, e: Event)
    requires Enabled(s, e) && Inv(s)
    ensures Inv(Next(s, e)) && |Next(s, e).workers| == |s.workers|
  {
    NextInOrder(s, e);
    NextConserved(s, e);
    NextConfirmedWerePut(s, e);
    NextLeftoversAreNew(s, e);
  }

  lemma {:induction false} RunInv(s: State, events: seq<Event>)
    requires Inv(s)
    ensures Run(s, events).Some? ==> Inv(Run(s, events).value)
    ensures Run(s, events).Some? ==> |Run(s, events).value.workers| == |s.workers|
    decreases |events|
  {
    if events == [] {
    } else if Enabled(s, events[0]) {
      NextInv(s, events[0]);
      RunInv(Next(s, events[0]), events[1..]);
    }
  }

  lemma {:induction false} RunAppend(s: State, front: seq<Event>, e: Event)
    requires Run(s, front).Some? && Enabled(Run(s, front).value, e)
    ensures Run(s, front + [e]) == Some(Next(Run(s, front).value, e))
    decreases |front|
  {
    if front == [] {
      assert Run(Next(s, e), ([] + [e])[1..]) == Some(Next(s, e));
    } else {
      assert (front + [e])[1..] == front[1..] + [e];
      RunAppend(Next(s, front[0]), front[1..], e);
    }
  }
}
