// The logging thread pool from the arrival of messages to the end of its destructor: producers
// that block or overrun the oldest message, workers that handle one message at a time, and one
// terminate message per worker.

module LogPool {

  datatype Message = Log(id: int) | Flush(id: int) | Terminate

  datatype Worker = Waiting | Handling(m: Message) | Exited

  // posted: every message put in the queue; removed: every message that has left it, either
  // taken by a worker or overrun; terminates: how many the destructor has put in; handled: what
  // the workers have finished.
  datatype Pool = Pool(capacity: nat, queue: seq<Message>, workers: seq<Worker>, closing: bool, terminates: nat,
                       posted: seq<Message>, removed: seq<Message>, taken: seq<Message>, overrun: seq<Message>,
                       handled: seq<Message>)

  predicate Init(s: Pool) {
    && 0 < |s.workers| <= 1000
    && (forall w :: 0 <= w < |s.workers| ==> s.workers[w] == Waiting)
    && s.queue == s.posted == s.removed == s.taken == s.overrun == s.handled == [] && !s.closing && s.terminates == 0
  }

  datatype Action =
    | Post(m: Message)      // a producer's blocking enqueue
    | PostNowait(m: Message) // a producer's overrunning enqueue
    | Close                 // the destructor begins; nobody else holds the pool any more
    | PostTerminate         // the destructor's blocking enqueue
    | Take(w: nat)          // a worker dequeues
    | TimeOut(w: nat)       // ten seconds without a message
    | Finish(w: nat)        // the worker is done with its message

  predicate Enabled(s: Pool, a: Action) {
    match a
    case Post(m) => !s.closing && m != Terminate && |s.queue| < s.capacity
    case PostNowait(m) => !s.closing && m != Terminate
    case Close => !s.closing
    case PostTerminate => s.closing && s.terminates < |s.workers| && |s.queue| < s.capacity
    case Take(w) => w < |s.workers| && s.workers[w] == Waiting && s.queue != []
    case TimeOut(w) => w < |s.workers| && s.workers[w] == Waiting && s.queue == []
    case Finish(w) => w < |s.workers| && s.workers[w].Handling?
  }

  // The message joins the full queue and the oldest leaves it unhandled.
  function Overrun(s: Pool, m: Message): Pool {
    var q := s.queue + [m];
    s.(queue := q[1..], posted := s.posted + [m], removed := s.removed + [q[0]], overrun := s.overrun + [q[0]])
  }

  function Next(s: Pool, a: Action): Pool
    requires Enabled(s, a)
    decreases a.PostNowait?
  {
    match a
    case Post(m) => s.(queue := s.queue + [m], posted := s.posted + [m])
    case PostNowait(m) => if |s.queue| < s.capacity then Next(s, Post(m)) else Overrun(s, m)
    case Close => s.(closing := true)
    case PostTerminate => s.(queue := s.queue + [Terminate], posted := s.posted + [Terminate], terminates := s.terminates + 1)
    case Take(w) =>
      var m := s.queue[0];
      s.(queue := s.queue[1..], removed := s.removed + [m], taken := s.taken + [m],
         workers := s.workers[w := if m == Terminate then Exited else Handling(m)])
    case TimeOut(w) => s
    case Finish(w) => s.(handled := s.handled + [s.workers[w].m], workers := s.workers[w := Waiting])
  }

  // ---- Counting ----

  lemma {:induction false} AllAre<T>(xs: seq<T>, x: T)
    ensures multiset(xs)[x] <= |xs|
    ensures multiset(xs)[x] == |xs| <==> forall i :: 0 <= i < |xs| ==> xs[i] == x
  {
    if xs != [] {
      var k := |xs| - 1;
      AllAre(xs[..k], x);
      assert xs == xs[..k] + [xs[k]];
      assert forall i :: 0 <= i < k ==> xs[..k][i] == xs[i];
    }
  }

  // ---- The invariant ----

  // Terminates come after every other message.
  predicate TerminatesLast(ms: seq<Message>) {
    forall i, j :: 0 <= i < j < |ms| && ms[i] == Terminate ==> ms[j] == Terminate
  }

  // What producers and the destructor have put into the queue and what is still there.
  predicate Queueing(s: Pool) {
    && |s.workers| > 0 && |s.queue| <= s.capacity
    && s.posted == s.removed + s.queue
    && TerminatesLast(s.posted)
    && multiset(s.posted)[Terminate] == s.terminates <= |s.workers| && (s.terminates > 0 ==> s.closing)
  }

  // What has left the queue was taken or overrun, and no terminate was overrun.
  ghost predicate Leaving(removed: seq<Message>, taken: seq<Message>, overrun: seq<Message>) {
    && (forall m :: multiset(removed)[m] == multiset(taken)[m] + multiset(overrun)[m])
    && (overrun == [] ==> removed == taken)
    && multiset(overrun)[Terminate] == 0
  }

  // What was taken is handled or in hand, or has sent a worker home.
  ghost predicate Working(taken: seq<Message>, workers: seq<Worker>, handled: seq<Message>) {
    && multiset(workers)[Exited] == multiset(taken)[Terminate]
    && multiset(handled)[Terminate] == multiset(workers)[Handling(Terminate)] == 0
    && forall m :: m != Terminate ==>
         multiset(handled)[m] + multiset(workers)[Handling(m)] == multiset(taken)[m]
  }

  ghost predicate Invariant(s: Pool) {
    Queueing(s) && Leaving(s.removed, s.taken, s.overrun) && Working(s.taken, s.workers, s.handled)
  }

  lemma CountSnoc<T>(xs: seq<T>, x: T)
    ensures forall y :: multiset(xs + [x])[y] == multiset(xs)[y] + (if x == y then 1 else 0)
  {
  }

  lemma CountUpdate<T>(xs: seq<T>, i: nat, x: T)
    requires i < |xs|
    ensures forall y :: multiset(xs[i := x])[y] + (if xs[i] == y then 1 else 0) == multiset(xs)[y] + (if x == y then 1 else 0)
  {
  }

  lemma WorkingTakes(taken: seq<Message>, workers: seq<Worker>, handled: seq<Message>, w: nat, m: Message)
    requires Working(taken, workers, handled) && w < |workers| && workers[w] == Waiting
    ensures Working(taken + [m], workers[w := if m == Terminate then Exited else Handling(m)], handled)
  {
    CountSnoc(taken, m);
    CountUpdate(workers, w, if m == Terminate then Exited else Handling(m));
  }

  lemma WorkingFinishes(taken: seq<Message>, workers: seq<Worker>, handled: seq<Message>, w: nat, m: Message)
    requires Working(taken, workers, handled) && w < |workers| && workers[w] == Handling(m)
    ensures Working(taken, workers[w := Waiting], handled + [m])
  {
    CountSnoc(handled, m);
    CountUpdate(workers, w, Waiting);
    assert multiset(workers)[workers[w]] > 0;
  }

  lemma LeavingTakes(removed: seq<Message>, taken: seq<Message>, overrun: seq<Message>, m: Message)
    requires Leaving(removed, taken, overrun)
    ensures Leaving(removed + [m], taken + [m], overrun)
  {
    CountSnoc(removed, m);
    CountSnoc(taken, m);
  }

  lemma LeavingOverruns(removed: seq<Message>, taken: seq<Message>, overrun: seq<Message>, m: Message)
    requires Leaving(removed, taken, overrun) && m != Terminate
    ensures Leaving(removed + [m], taken, overrun + [m])
  {
    CountSnoc(removed, m);
    CountSnoc(overrun, m);
  }

  lemma InitEstablishes(s: Pool)
    requires Init(s)
    ensures Invariant(s)
  {
  }

  lemma PostKeeps(s: Pool, m: Message)
    requires Queueing(s) && |s.queue| < s.capacity
    requires if m == Terminate then s.closing && s.terminates < |s.workers| else !s.closing
    ensures Queueing(s.(queue := s.queue + [m], posted := s.posted + [m],
                        terminates := s.terminates + (if m == Terminate then 1 else 0)))
  {
    assert s.posted + [m] == s.removed + (s.queue + [m]);
    CountSnoc(s.posted, m);
    forall i | 0 <= i < |s.posted| && s.posted[i] == Terminate ensures m == Terminate {
      assert multiset(s.posted)[s.posted[i]] > 0;
    }
  }

  // No terminate is overrun: as long as producers post there is none in the queue.
  lemma OverrunKeeps(s: Pool, m: Message)
    requires Queueing(s) && !s.closing && m != Terminate && |s.queue| >= s.capacity
    ensures Queueing(Overrun(s, m)) && (s.queue + [m])[0] != Terminate
  {
    var q, s' := s.queue + [m], Overrun(s, m);
    assert s.posted + [m] == s.removed + q && q == [q[0]] + q[1..];
    assert s'.posted == s'.removed + s'.queue;
    CountSnoc(s.posted, m);
    forall i | 0 <= i < |s'.posted| ensures s'.posted[i] != Terminate {
      if i < |s.posted| { assert multiset(s.posted)[s.posted[i]] > 0; }
    }
    assert q[0] == s'.posted[|s.removed|];
  }

  // A message is overrun exactly if the queue is full: then the oldest, or the new one itself if
  // the queue holds nothing.
  lemma OverrunOnlyWhenFull(s: Pool, m: Message)
    requires Enabled(s, PostNowait(m)) && |s.queue| <= s.capacity
    ensures var s' := Next(s, PostNowait(m));
            && (s'.overrun != s.overrun <==> |s.queue| == s.capacity)
            && (|s.queue| < s.capacity ==> s'.queue == s.queue + [m])
            && (|s.queue| == s.capacity ==>
                  s'.overrun == s.overrun + [if s.queue == [] then m else s.queue[0]] && |s'.queue| == s.capacity)
  {
  }

  lemma TakeKeepsQueue(s: Pool, w: nat)
    requires Queueing(s) && Enabled(s, Take(w))
    ensures Queueing(Next(s, Take(w)))
  {
    assert s.posted == (s.removed + [s.queue[0]]) + s.queue[1..];
  }

  lemma TakeKeepsWork(s: Pool, w: nat)
    requires Working(s.taken, s.workers, s.handled) && Enabled(s, Take(w))
    ensures var s' := Next(s, Take(w)); Working(s'.taken, s'.workers, s'.handled)
  {
    WorkingTakes(s.taken, s.workers, s.handled, w, s.queue[0]);
  }

  lemma TakeKeeps(s: Pool, w: nat)
    requires Invariant(s) && Enabled(s, Take(w))
    ensures Invariant(Next(s, Take(w)))
  {
    TakeKeepsQueue(s, w);
    TakeKeepsWork(s, w);
    LeavingTakes(s.removed, s.taken, s.overrun, s.queue[0]);
  }

  lemma FinishKeeps(s: Pool, w: nat)
    requires Invariant(s) && Enabled(s, Finish(w))
    ensures Invariant(Next(s, Finish(w)))
  {
    WorkingFinishes(s.taken, s.workers, s.handled, w, s.workers[w].m);
  }

  lemma NowaitKeeps(s: Pool, m: Message)
    requires Invariant(s) && Enabled(s, PostNowait(m))
    ensures Invariant(Next(s, PostNowait(m)))
  {
    if |s.queue| < s.capacity {
      PostKeeps(s, m);
    } else {
      OverrunKeeps(s, m);
      LeavingOverruns(s.removed, s.taken, s.overrun, (s.queue + [m])[0]);
    }
  }

  lemma StepKeeps(s: Pool, a: Action)
    requires Invariant(s) && Enabled(s, a)
    ensures Invariant(Next(s, a)) && |Next(s, a).workers| == |s.workers|
  {
    match a {
      case Post(m) => PostKeeps(s, m);
      case PostNowait(m) => NowaitKeeps(s, m);
      case Close =>
      case PostTerminate => PostKeeps(s, Terminate);
      case Take(w) => TakeKeeps(s, w);
      case TimeOut(w) =>
      case Finish(w) => FinishKeeps(s, w);
    }
  }

  ghost predicate Reachable(s: Pool, actions: seq<Action>, t: Pool)
    decreases |actions|
  {
    if actions == [] then s == t else Enabled(s, actions[0]) && Reachable(Next(s, actions[0]), actions[1..], t)
  }

  lemma {:induction false} RunsKeep(s: Pool, actions: seq<Action>, t: Pool)
    requires Invariant(s) && Reachable(s, actions, t)
    ensures Invariant(t) && |t.workers| == |s.workers|
    decreases |actions|
  {
    if actions != [] {
      var s' := Next(s, actions[0]);
      StepKeeps(s, actions[0]);
      RunsKeep(s', actions[1..], t);
    }
  }

  // The destructor has posted its messages and joined every thread.
  predicate Joined(s: Pool) {
    s.closing && s.terminates == |s.workers| && forall w :: 0 <= w < |s.workers| ==> s.workers[w] == Exited
  }

  lemma BehindATerminate(a: seq<Message>, b: seq<Message>)
    requires TerminatesLast(a + b) && Terminate in a
    ensures forall j :: 0 <= j < |b| ==> b[j] == Terminate
  {
    var i :| 0 <= i < |a| && a[i] == Terminate;
    assert (a + b)[i] == Terminate;
    forall j | 0 <= j < |b| ensures b[j] == Terminate {
      assert (a + b)[|a| + j] == b[j];
    }
  }

  // Once every terminate has been taken the queue is empty: nothing else comes after them.
  lemma NothingBehind(s: Pool)
    requires Invariant(s) && multiset(s.taken)[Terminate] == s.terminates > 0
    ensures s.queue == []
  {
    assert Terminate in multiset(s.removed);
    BehindATerminate(s.removed, s.queue);
    AllAre(s.queue, Terminate);
    assert multiset(s.posted) == multiset(s.removed) + multiset(s.queue);
  }

  // When the destructor returns, every message posted before it was handled once or overrun, no
  // terminate was overrun and each worker has left on exactly one, and the queue is empty.
  lemma DestructionIsClean(s: Pool, actions: seq<Action>, t: Pool)
    requires Init(s) && Reachable(s, actions, t) && Joined(t)
    ensures t.queue == [] && t.removed == t.posted
    ensures forall m :: multiset(t.handled)[m] + multiset(t.overrun)[m] == if m == Terminate then 0 else multiset(t.posted)[m]
    ensures multiset(t.taken)[Terminate] == multiset(t.posted)[Terminate] == |t.workers| == |s.workers|
  {
    InitEstablishes(s);
    RunsKeep(s, actions, t);
    AllAre(t.workers, Exited);
    NothingBehind(t);
    assert t.posted == t.removed;
    forall m | m != Terminate ensures multiset(t.workers)[Handling(m)] == 0 {
      assert Handling(m) !in t.workers;
    }
  }

  lemma {:induction false} BlockingRunsLoseNothing(s: Pool, actions: seq<Action>, t: Pool)
    requires Reachable(s, actions, t) && forall i :: 0 <= i < |actions| ==> !actions[i].PostNowait?
    ensures t.overrun == s.overrun
    decreases |actions|
  {
    if actions != [] {
      BlockingRunsLoseNothing(Next(s, actions[0]), actions[1..], t);
    }
  }

  // With blocking producers only, destruction loses nothing: every message posted before it has
  // been handled exactly once, and they were taken in the order they were posted.
  lemma DestructionLosesNothing(s: Pool, actions: seq<Action>, t: Pool)
    requires Init(s) && Reachable(s, actions, t) && Joined(t)
    requires forall i :: 0 <= i < |actions| ==> !actions[i].PostNowait?
    ensures t.queue == [] && t.taken == t.posted
    ensures forall m :: multiset(t.handled)[m] == if m == Terminate then 0 else multiset(t.posted)[m]
  {
    InitEstablishes(s);
    RunsKeep(s, actions, t);
    DestructionIsClean(s, actions, t);
    BlockingRunsLoseNothing(s, actions, t);
  }

  // ---- The destructor does return ----

  // Two steps for every message in the queue and one for every message being handled.
  function Left(s: Pool): int {
    4 * (|s.workers| - s.terminates) + 2 * |s.queue|
    + (|s.workers| - multiset(s.workers)[Waiting] - multiset(s.workers)[Exited])
  }

  lemma {:induction false} TwoKinds<T>(xs: seq<T>, x: T, y: T)
    requires x != y
    ensures multiset(xs)[x] + multiset(xs)[y] <= |xs|
  {
    if xs != [] {
      TwoKinds(xs[1..], x, y);
      assert xs == [xs[0]] + xs[1..];
    }
  }

  // While closing, every step but an idle worker's time-out brings the end nearer.
  lemma ClosingProgresses(s: Pool, a: Action)
    requires Invariant(s) && s.closing && Enabled(s, a) && !a.TimeOut?
    ensures 0 <= Left(Next(s, a)) < Left(s)
  {
    TwoKinds(Next(s, a).workers, Waiting, Exited);
  }

  // And as long as the destructor has not finished there is such a step, if the queue can hold
  // anything at all.
  lemma ClosingNeverSticks(s: Pool) returns (a: Action)
    requires Invariant(s) && s.closing && !Joined(s) && s.capacity > 0
    ensures Enabled(s, a) && !a.TimeOut?
  {
    AllAre(s.workers, Exited);
    AllAre(s.taken, Terminate);
    if w :| 0 <= w < |s.workers| && s.workers[w].Handling? {
      return Finish(w);
    }
    if s.queue == [] {
      assert s.removed == s.posted;
      return PostTerminate;
    }
    if multiset(s.taken)[Terminate] == |s.workers| {
      assert multiset(s.posted) == multiset(s.removed) + multiset(s.queue);
      NothingBehind(s);
    }
    var w :| 0 <= w < |s.workers| && s.workers[w] == Waiting;
    return Take(w);
  }
}
