// One processing episode of the modem: the main loop walks the subframes, locks a frame
// processor, fills its buffer and pushes a task; pool workers take tasks in order and unlock
// the processor when its subframe is done. Main and workers interleave freely; every call that
// takes a mutex, and every stretch of a worker between two such calls, is one step.

module FramePool {
  import opened Powers
  import opened Wrappers
  import opened Subframes

  // ---- The task queue of the thread pool ----

  // The queue is a first-in first-out list under a mutex; a worker that finds it empty waits.
  // pushed and removed are its history.
  class TaskQueue<T> {
    var tasks: seq<T>
    var stop: bool
    ghost var pushed: seq<T>
    ghost var removed: seq<T>

    ghost predicate Valid()
      reads this
    {
      pushed == removed + tasks
    }

    constructor ()
      ensures Valid() && pushed == [] && !stop
    {
      tasks, stop, pushed, removed := [], false, [], [];
    }

    method Push(t: T)
      requires Valid()
      modifies this`tasks, this`pushed
      ensures Valid() && pushed == old(pushed) + [t]
    {
      tasks, pushed := tasks + [t], pushed + [t];
    }

    // What a worker gets after waiting for a task or the stop flag: the k-th task to be removed
    // is the k-th that was pushed, and nothing only when all of them have been.
    method NextTask() returns (t: Option<T>)
      requires Valid() && (tasks != [] || stop)
      modifies this`tasks, this`removed
      ensures Valid()
      ensures t == None <==> old(removed) == pushed
      ensures t == None ==> removed == old(removed)
      ensures t.Some? ==> |old(removed)| < |pushed| && t.value == pushed[|old(removed)|]
                          && removed == old(removed) + [t.value]
    {
      if tasks == [] { return None; }
      t := Some(tasks[0]);
      tasks, removed := tasks[1..], removed + [tasks[0]];
    }

    method Clear()
      requires Valid()
      modifies this`tasks, this`removed
      ensures Valid() && removed == pushed
    {
      while tasks != []
        invariant Valid()
        decreases |tasks|
      {
        tasks, removed := tasks[1..], removed + [tasks[0]];
      }
    }
  }

  // ---- The episode as a state machine ----

  // Processors 0 .. n - 1 handle MBSFN subframes in turn; processor n handles CAS subframes.
  datatype Task = Task(proc: nat, tti: nat)

  datatype Worker = Free | Running(task: Task) | Returning(task: Task)

  datatype Main = Stepping | Locking(proc: nat) | Filling(proc: nat) | Ended(kept: Option<nat>)

  // clock counts subframes without wrapping; stamps holds its value at every push, discards at
  // every discard. turns lists the processors that MBSFN subframes went to, and turnStamps
  // those subframes.
  datatype State = State(n: nat, dedicated: bool, tti: nat, mbIdx: nat, main: Main,
                         locked: seq<bool>, queue: seq<Task>, workers: seq<Worker>,
                         pushed: seq<Task>, started: seq<Task>, done: seq<Task>,
                         clock: nat, stamps: seq<nat>, discards: seq<nat>,
                         turns: seq<nat>, turnStamps: seq<nat>)

  // All locks free, nothing queued, n + 1 workers waiting.
  predicate Init(s: State) {
    && s.n > 0 && s.mbIdx == 0 && s.tti < 10240 && s.main == Stepping
    && |s.locked| == s.n + 1 && (forall p :: 0 <= p < |s.locked| ==> !s.locked[p])
    && s.queue == [] && |s.workers| == s.n + 1 && (forall w :: 0 <= w < |s.workers| ==> s.workers[w] == Free)
    && s.pushed == s.started == s.done == [] && s.clock == s.tti && s.stamps == s.discards == s.turns == s.turnStamps == []
  }

  datatype Action =
    | Advance                       // next subframe, choose the processor
    | Restart                       // the restart flag is seen: the episode ends, nothing is locked
    | Lock                          // the processor's mutex is taken
    | FetchFails                    // no frame: the episode ends with the lock still held
    | Hand(endsEpisode: bool)       // the task is pushed; a bandwidth change may end the episode
    | Discard                       // no MBSFN configuration yet: unlock without a task
    | Start(w: nat)                 // a worker takes the oldest task
    | Unlock(w: nat)                // the task is done with the processor
    | Return(w: nat)                // the worker is back for the next task

  function Processor(s: State, tti: nat): nat {
    if IsCas(s.dedicated, tti) then s.n else s.mbIdx
  }

  predicate Enabled(s: State, a: Action) {
    match a
    case Advance => s.main == Stepping
    case Restart => s.main == Stepping
    case Lock => s.main.Locking? && s.main.proc < |s.locked| && !s.locked[s.main.proc]
    case FetchFails => s.main.Filling?
    case Hand(ends) => s.main.Filling? && (ends ==> s.main.proc == s.n)
    case Discard => s.main.Filling? && s.main.proc < s.n && s.main.proc < |s.locked|
    case Start(w) => w < |s.workers| && s.workers[w] == Free && s.queue != []
    case Unlock(w) => w < |s.workers| && s.workers[w].Running? && s.workers[w].task.proc < |s.locked|
    case Return(w) => w < |s.workers| && s.workers[w].Returning?
  }

  function NextMbIdx(s: State): nat
    requires s.n > 0
  {
    if s.main.Filling? && s.main.proc < s.n then (s.mbIdx + 1) % s.n else s.mbIdx
  }

  function NextTurns(s: State): seq<nat> {
    if s.main.Filling? && s.main.proc < s.n then s.turns + [s.main.proc] else s.turns
  }

  function NextTurnStamps(s: State): seq<nat> {
    if s.main.Filling? && s.main.proc < s.n then s.turnStamps + [s.clock] else s.turnStamps
  }

  function Next(s: State, a: Action): State
    requires s.n > 0 && Enabled(s, a)
  {
    match a
    case Advance =>
      var tti := StepTti(s.tti);
      s.(tti := tti, clock := s.clock + 1, main := Locking(Processor(s, tti)))
    case Restart => s.(tti := StepTti(s.tti), clock := s.clock + 1, main := Ended(None))
    case Lock => s.(locked := s.locked[s.main.proc := true], main := Filling(s.main.proc))
    case FetchFails => s.(main := Ended(Some(s.main.proc)))
    case Hand(ends) =>
      var t := Task(s.main.proc, s.tti);
      s.(queue := s.queue + [t], pushed := s.pushed + [t], stamps := s.stamps + [s.clock], mbIdx := NextMbIdx(s),
         turns := NextTurns(s), turnStamps := NextTurnStamps(s),
         main := if ends then Ended(None) else Stepping)
    case Discard =>
      s.(locked := s.locked[s.main.proc := false], mbIdx := NextMbIdx(s), turns := NextTurns(s),
         turnStamps := NextTurnStamps(s), discards := s.discards + [s.clock], main := Stepping)
    case Start(w) =>
      s.(queue := s.queue[1..], started := s.started + [s.queue[0]], workers := s.workers[w := Running(s.queue[0])])
    case Unlock(w) =>
      var t := s.workers[w].task;
      s.(locked := s.locked[t.proc := false], done := s.done + [t], workers := s.workers[w := Returning(t)])
    case Return(w) => s.(workers := s.workers[w := Free])
  }

  // The queue object in a state of the episode.
  ghost predicate Represents(q: TaskQueue<Task>, s: State)
    reads q
  {
    q.Valid() && q.tasks == s.queue && q.pushed == s.pushed && q.removed == s.started
  }

  // Main's push and a worker's fetch on the queue object are the steps Hand and Start.
  method PushTask(q: TaskQueue<Task>, s: State, ghost ends: bool)
    requires s.n > 0 && Represents(q, s) && Enabled(s, Hand(ends))
    modifies q
    ensures Represents(q, Next(s, Hand(ends)))
  {
    q.Push(Task(s.main.proc, s.tti));
    assert q.tasks == q.pushed[|q.removed|..];
  }

  method FetchTask(q: TaskQueue<Task>, ghost s: State, ghost w: nat) returns (t: Task)
    requires s.n > 0 && Represents(q, s) && Enabled(s, Start(w))
    modifies q
    ensures Represents(q, Next(s, Start(w))) && Next(s, Start(w)).workers[w] == Running(t)
  {
    assert q.pushed[|q.removed|] == q.tasks[0];
    var next := q.NextTask();
    t := next.value;
    assert q.tasks == q.pushed[|q.removed|..];
  }

  // ---- Who holds a processor ----

  predicate HeldByMain(s: State, p: nat) {
    s.main == Filling(p) || s.main == Ended(Some(p))
  }

  predicate Queued(s: State, p: nat) {
    exists i :: 0 <= i < |s.queue| && s.queue[i].proc == p
  }

  predicate InWork(s: State, p: nat) {
    exists w :: 0 <= w < |s.workers| && s.workers[w].Running? && s.workers[w].task.proc == p
  }

  predicate Shaped(s: State) {
    && s.n > 0 && s.mbIdx < s.n && s.tti < 10240
    && |s.locked| == s.n + 1 && |s.workers| == s.n + 1
    && (s.main.Locking? || s.main.Filling? ==> s.main.proc <= s.n)
    && (forall i :: 0 <= i < |s.queue| ==> s.queue[i].proc <= s.n)
    && (forall w :: 0 <= w < |s.workers| && s.workers[w].Running? ==> s.workers[w].task.proc <= s.n)
  }

  // A processor is locked exactly when main fills it (or gave up on it) or one task for it is
  // queued or running.
  predicate LockedByHolder(s: State)
    requires |s.locked| == s.n + 1
  {
    forall p: nat :: p <= s.n ==> (s.locked[p] <==> HeldByMain(s, p) || Queued(s, p) || InWork(s, p))
  }

  // No two holders share a processor.
  predicate OneHolder(s: State) {
    && (forall i, j :: 0 <= i < j < |s.queue| ==> s.queue[i].proc != s.queue[j].proc)
    && (forall v, w :: 0 <= v < w < |s.workers| && s.workers[v].Running? && s.workers[w].Running? ==>
          s.workers[v].task.proc != s.workers[w].task.proc)
    && (forall i, w :: 0 <= i < |s.queue| && 0 <= w < |s.workers| && s.workers[w].Running? ==>
          s.queue[i].proc != s.workers[w].task.proc)
    && (forall i :: 0 <= i < |s.queue| ==> !HeldByMain(s, s.queue[i].proc))
    && (forall w :: 0 <= w < |s.workers| && s.workers[w].Running? ==> !HeldByMain(s, s.workers[w].task.proc))
  }

  // The tasks for one processor, in order.
  function For(tasks: seq<Task>, p: nat): seq<Task> {
    if tasks == [] then []
    else For(tasks[..|tasks| - 1], p) + (if tasks[|tasks| - 1].proc == p then [tasks[|tasks| - 1]] else [])
  }

  // Tasks start in the order they were pushed, each once; a processor finishes them in the
  // order it started them, with at most one unfinished.
  ghost predicate InOrder(s: State) {
    && s.pushed == s.started + s.queue
    && (forall p: nat :: !InWork(s, p) ==> For(s.started, p) == For(s.done, p))
    && (forall w :: 0 <= w < |s.workers| && s.workers[w].Running? ==>
          For(s.started, s.workers[w].task.proc) == For(s.done, s.workers[w].task.proc) + [s.workers[w].task])
  }

  ghost predicate Invariant(s: State) {
    Shaped(s) && LockedByHolder(s) && OneHolder(s) && InOrder(s)
  }

  lemma InitEstablishes(s: State)
    requires Init(s)
    ensures Invariant(s)
  {}

  lemma ForSnoc(tasks: seq<Task>, t: Task, p: nat)
    ensures For(tasks + [t], p) == For(tasks, p) + (if t.proc == p then [t] else [])
  {
    assert (tasks + [t])[..|tasks|] == tasks;
  }

  lemma LockKeeps(s: State)
    requires Invariant(s) && Enabled(s, Lock)
    ensures Invariant(Next(s, Lock))
  {
    var s' := Next(s, Lock);
    forall p: nat ensures Queued(s', p) == Queued(s, p) && InWork(s', p) == InWork(s, p) {}
    assert !Queued(s, s.main.proc) && !InWork(s, s.main.proc);
  }

  lemma DiscardKeeps(s: State)
    requires Invariant(s) && Enabled(s, Discard)
    ensures Invariant(Next(s, Discard))
  {
    var s' := Next(s, Discard);
    forall p: nat ensures Queued(s', p) == Queued(s, p) && InWork(s', p) == InWork(s, p) {}
  }

  // Steps that change neither queue nor workers nor locks nor what main holds.
  lemma SameHolders(s: State, s': State)
    requires Invariant(s) && Shaped(s')
    requires s'.n == s.n && s'.locked == s.locked && s'.queue == s.queue && s'.workers == s.workers
    requires s'.pushed == s.pushed && s'.started == s.started && s'.done == s.done
    requires forall p: nat :: HeldByMain(s', p) == HeldByMain(s, p)
    ensures Invariant(s')
  {
    forall p: nat ensures Queued(s', p) == Queued(s, p) && InWork(s', p) == InWork(s, p) {}
  }

  lemma HandKeeps(s: State, ends: bool)
    requires Invariant(s) && Enabled(s, Hand(ends))
    ensures Invariant(Next(s, Hand(ends)))
  {
    HandLocks(s, ends);
    HandOne(s, ends);
    HandShaped(s, ends);
    HandOrder(s, ends);
  }

  lemma HandLocks(s: State, ends: bool)
    requires Invariant(s) && Enabled(s, Hand(ends))
    ensures LockedByHolder(Next(s, Hand(ends)))
  {
    HandHolders(s, ends);
  }

  lemma HandOne(s: State, ends: bool)
    requires Invariant(s) && Enabled(s, Hand(ends))
    ensures OneHolder(Next(s, Hand(ends)))
  {}

  lemma HandShaped(s: State, ends: bool)
    requires Invariant(s) && Enabled(s, Hand(ends))
    ensures Shaped(Next(s, Hand(ends)))
  {}

  lemma HandOrder(s: State, ends: bool)
    requires Invariant(s) && Enabled(s, Hand(ends))
    ensures InOrder(Next(s, Hand(ends)))
  {
    HandHolders(s, ends);
  }

  lemma HandHolders(s: State, ends: bool)
    requires Invariant(s) && Enabled(s, Hand(ends))
    ensures var s' := Next(s, Hand(ends));
            forall p: nat :: InWork(s', p) == InWork(s, p) && (Queued(s', p) <==> Queued(s, p) || p == s.main.proc)
  {
    var s' := Next(s, Hand(ends));
    assert s'.queue[|s.queue|].proc == s.main.proc;
    forall p: nat ensures InWork(s', p) == InWork(s, p) && (Queued(s', p) <==> Queued(s, p) || p == s.main.proc) {
      if Queued(s, p) {
        var i :| 0 <= i < |s.queue| && s.queue[i].proc == p;
        assert s'.queue[i].proc == p;
      }
    }
  }

  lemma StartKeeps(s: State, w: nat)
    requires Invariant(s) && Enabled(s, Start(w))
    ensures Invariant(Next(s, Start(w)))
  {
    StartHolders(s, w);
    StartOne(s, w);
    StartOrder(s, w);
  }

  lemma StartHolders(s: State, w: nat)
    requires Invariant(s) && Enabled(s, Start(w))
    ensures var s' := Next(s, Start(w));
            forall p: nat :: (Queued(s', p) || InWork(s', p) <==> Queued(s, p) || InWork(s, p))
                             && (InWork(s', p) <==> InWork(s, p) || p == s.queue[0].proc)
    ensures LockedByHolder(Next(s, Start(w)))
  {
    var s' := Next(s, Start(w));
    var t := s.queue[0];
    assert s'.workers[w] == Running(t);
    forall p: nat
      ensures (Queued(s', p) || InWork(s', p) <==> Queued(s, p) || InWork(s, p))
              && (InWork(s', p) <==> InWork(s, p) || p == t.proc)
    {
      if Queued(s, p) {
        var i :| 0 <= i < |s.queue| && s.queue[i].proc == p;
        if i > 0 { assert s'.queue[i - 1].proc == p; }
      }
      if Queued(s', p) {
        var i :| 0 <= i < |s'.queue| && s'.queue[i].proc == p;
        assert s.queue[i + 1].proc == p;
      }
      if InWork(s, p) {
        var v :| 0 <= v < |s.workers| && s.workers[v].Running? && s.workers[v].task.proc == p;
        assert s'.workers[v] == s.workers[v];
      }
    }
  }

  lemma StartOne(s: State, w: nat)
    requires Invariant(s) && Enabled(s, Start(w))
    ensures Shaped(Next(s, Start(w))) && OneHolder(Next(s, Start(w)))
  {}

  lemma StartOrder(s: State, w: nat)
    requires Invariant(s) && Enabled(s, Start(w))
    ensures InOrder(Next(s, Start(w)))
  {
    var s' := Next(s, Start(w));
    var t := s.queue[0];
    StartHolders(s, w);
    forall p: nat ensures For(s'.started, p) == For(s.started, p) + (if t.proc == p then [t] else []) {
      ForSnoc(s.started, t, p);
    }
    assert !InWork(s, t.proc);
    assert s.queue == [t] + s'.queue;
    forall v | 0 <= v < |s'.workers| && s'.workers[v].Running?
      ensures For(s'.started, s'.workers[v].task.proc) == For(s'.done, s'.workers[v].task.proc) + [s'.workers[v].task]
    {
      if v != w { assert s'.workers[v] == s.workers[v]; }
    }
  }

  lemma UnlockKeeps(s: State, w: nat)
    requires Invariant(s) && Enabled(s, Unlock(w))
    ensures Invariant(Next(s, Unlock(w)))
  {
    UnlockHolders(s, w);
    UnlockOne(s, w);
    UnlockOrder(s, w);
  }

  lemma UnlockHolders(s: State, w: nat)
    requires Invariant(s) && Enabled(s, Unlock(w))
    ensures var s' := Next(s, Unlock(w));
            forall p: nat :: Queued(s', p) == Queued(s, p) && (InWork(s', p) <==> InWork(s, p) && p != s.workers[w].task.proc)
    ensures LockedByHolder(Next(s, Unlock(w)))
  {
    var s' := Next(s, Unlock(w));
    var t := s.workers[w].task;
    forall p: nat ensures Queued(s', p) == Queued(s, p) && (InWork(s', p) <==> InWork(s, p) && p != t.proc) {
      if InWork(s, p) && p != t.proc {
        var v :| 0 <= v < |s.workers| && s.workers[v].Running? && s.workers[v].task.proc == p;
        assert s'.workers[v] == s.workers[v];
      }
      if InWork(s', p) {
        var v :| 0 <= v < |s'.workers| && s'.workers[v].Running? && s'.workers[v].task.proc == p;
        assert v != w && s.workers[v] == s'.workers[v];
      }
    }
    assert !HeldByMain(s, t.proc);
  }

  lemma UnlockOne(s: State, w: nat)
    requires Invariant(s) && Enabled(s, Unlock(w))
    ensures Shaped(Next(s, Unlock(w))) && OneHolder(Next(s, Unlock(w)))
  {}

  lemma UnlockOrder(s: State, w: nat)
    requires Invariant(s) && Enabled(s, Unlock(w))
    ensures InOrder(Next(s, Unlock(w)))
  {
    var s' := Next(s, Unlock(w));
    var t := s.workers[w].task;
    UnlockHolders(s, w);
    forall p: nat ensures For(s'.done, p) == For(s.done, p) + (if t.proc == p then [t] else []) {
      ForSnoc(s.done, t, p);
    }
  }

  lemma ReturnKeeps(s: State, w: nat)
    requires Invariant(s) && Enabled(s, Return(w))
    ensures Invariant(Next(s, Return(w)))
  {
    var s' := Next(s, Return(w));
    forall p: nat ensures Queued(s', p) == Queued(s, p) && InWork(s', p) == InWork(s, p) {
      if InWork(s, p) {
        var v :| 0 <= v < |s.workers| && s.workers[v].Running? && s.workers[v].task.proc == p;
        assert s'.workers[v] == s.workers[v];
      }
    }
  }

  lemma StepKeeps(s: State, a: Action)
    requires Invariant(s) && Enabled(s, a)
    ensures Invariant(Next(s, a))
  {
    if a.Lock? {
      LockKeeps(s);
    } else if a.Discard? {
      DiscardKeeps(s);
    } else if a.Hand? {
      HandKeeps(s, a.endsEpisode);
    } else if a.Start? {
      StartKeeps(s, a.w);
    } else if a.Unlock? {
      UnlockKeeps(s, a.w);
    } else if a.Return? {
      ReturnKeeps(s, a.w);
    } else {
      SameHolders(s, Next(s, a));
    }
  }

  ghost predicate Reachable(s: State, actions: seq<Action>, t: State)
    decreases |actions|
  {
    if actions == [] then s == t
    else s.n > 0 && Enabled(s, actions[0]) && Reachable(Next(s, actions[0]), actions[1..], t)
  }

  lemma {:induction false} RunsKeepInvariant(s: State, actions: seq<Action>, t: State)
    requires Invariant(s) && Reachable(s, actions, t)
    ensures Invariant(t)
    decreases |actions|
  {
    if actions != [] {
      StepKeeps(s, actions[0]);
      RunsKeepInvariant(Next(s, actions[0]), actions[1..], t);
    }
  }

  // ---- What the invariant says about an episode ----

  // The processors of all tasks that hold one.
  function Holding(workers: seq<Worker>): seq<nat> {
    if workers == [] then []
    else Holding(workers[..|workers| - 1])
         + (if workers[|workers| - 1].Running? then [workers[|workers| - 1].task.proc] else [])
  }

  function Procs(queue: seq<Task>): (r: seq<nat>)
    ensures |r| == |queue|
  {
    seq(|queue|, i requires 0 <= i < |queue| => queue[i].proc)
  }

  predicate Distinct(s: seq<nat>) {
    forall i, j :: 0 <= i < j < |s| ==> s[i] != s[j]
  }

  lemma {:induction false} HoldingDistinct(workers: seq<Worker>)
    requires forall v, w :: 0 <= v < w < |workers| && workers[v].Running? && workers[w].Running? ==>
               workers[v].task.proc != workers[w].task.proc
    ensures Distinct(Holding(workers))
    ensures forall p :: p in Holding(workers)
                        <==> exists w :: 0 <= w < |workers| && workers[w].Running? && workers[w].task.proc == p
  {
    if workers != [] {
      var k := |workers| - 1;
      HoldingDistinct(workers[..k]);
      assert workers[k].Running? ==> workers[k].task.proc !in Holding(workers[..k]);
      forall p
        ensures p in Holding(workers)
                <==> exists w :: 0 <= w < |workers| && workers[w].Running? && workers[w].task.proc == p
      {
        if exists w :: 0 <= w < |workers| && workers[w].Running? && workers[w].task.proc == p {
          var w :| 0 <= w < |workers| && workers[w].Running? && workers[w].task.proc == p;
          if w < k { assert workers[..k][w] == workers[w]; }
        }
      }
    }
  }

  // Pigeonhole: different numbers below n number at most n.
  lemma {:induction false} DistinctBound(s: seq<nat>, n: nat)
    requires Distinct(s) && forall i :: 0 <= i < |s| ==> s[i] < n
    ensures |s| <= n
  {
    if s == [] { return; }
    assert s[0] < n;
    if i :| 0 <= i < |s| && s[i] == n - 1 {
      var rest := s[..i] + s[i + 1..];
      forall a, b | 0 <= a < b < |rest| ensures rest[a] != rest[b] {
        var a', b' := if a < i then a else a + 1, if b < i then b else b + 1;
        assert rest[a] == s[a'] && rest[b] == s[b'];
      }
      forall a | 0 <= a < |rest| ensures rest[a] < n - 1 {
        var a' := if a < i then a else a + 1;
        assert rest[a] == s[a'] && s[a'] != s[i];
      }
      DistinctBound(rest, n - 1);
    } else {
      DistinctBound(s, n - 1);
    }
  }

  // At most thread_cnt + 1 tasks hold a processor, so a worker is never short of one to wait for.
  lemma FewHolders(s: State)
    requires Invariant(s)
    ensures |s.queue| + |Holding(s.workers)| <= s.n + 1
  {
    var all := Procs(s.queue) + Holding(s.workers);
    HoldingDistinct(s.workers);
    forall i, j | 0 <= i < j < |all| ensures all[i] != all[j] {
      if i < |s.queue| <= j {
        assert all[j] in Holding(s.workers);
      } else if j < |s.queue| {
        assert s.queue[i].proc != s.queue[j].proc;
      } else {
        assert all[i] == Holding(s.workers)[i - |s.queue|] && all[j] == Holding(s.workers)[j - |s.queue|];
      }
    }
    forall i | 0 <= i < |all| ensures all[i] < s.n + 1 {
      if i >= |s.queue| { assert all[i] in Holding(s.workers); }
    }
    DistinctBound(all, s.n + 1);
  }

  predicate WorkerAction(a: Action) { a.Start? || a.Unlock? || a.Return? }

  function Weight(w: Worker): nat {
    match w case Free => 0 case Running(_) => 2 case Returning(_) => 1
  }

  function Weights(workers: seq<Worker>): nat {
    if workers == [] then 0 else Weights(workers[..|workers| - 1]) + Weight(workers[|workers| - 1])
  }

  // Work left for the workers.
  function Left(s: State): nat { 3 * |s.queue| + Weights(s.workers) }

  lemma {:induction false} WeightsUpdate(workers: seq<Worker>, w: nat, x: Worker)
    requires w < |workers|
    ensures Weights(workers[w := x]) == Weights(workers) + Weight(x) - Weight(workers[w])
  {
    var k := |workers| - 1;
    if w == k {
      assert workers[w := x][..k] == workers[..k];
    } else {
      assert workers[w := x][..k] == workers[..k][w := x];
      WeightsUpdate(workers[..k], w, x);
    }
  }

  // Every worker step uses up work, so the workers come to rest by themselves.
  lemma WorkersUseUpWork(s: State, a: Action)
    requires s.n > 0 && Enabled(s, a) && WorkerAction(a)
    ensures Left(Next(s, a)) == Left(s) - 1
  {
    match a
    case Start(w) => WeightsUpdate(s.workers, w, Running(s.queue[0]));
    case Unlock(w) => WeightsUpdate(s.workers, w, Returning(s.workers[w].task));
    case Return(w) => WeightsUpdate(s.workers, w, Free);
  }

  // As long as any processor is held by a task some worker can go on, so main never waits for
  // ever: when no worker can, every lock but main's own is free.
  lemma SomeWorkerGoesOn(s: State) returns (a: Action)
    requires Invariant(s) && (s.queue != [] || exists w :: 0 <= w < |s.workers| && s.workers[w] != Free)
    ensures WorkerAction(a) && Enabled(s, a)
  {
    if w :| 0 <= w < |s.workers| && s.workers[w] != Free {
      a := if s.workers[w].Running? then Unlock(w) else Return(w);
    } else {
      assert s.workers[0] == Free;
      a := Start(0);
    }
  }

  lemma MainGetsTheLock(s: State)
    requires Invariant(s) && s.main.Locking?
    requires forall a :: WorkerAction(a) ==> !Enabled(s, a)
    ensures Enabled(s, Lock)
  {
    if s.queue != [] || exists w :: 0 <= w < |s.workers| && s.workers[w] != Free {
      var a := SomeWorkerGoesOn(s);
      assert false;
    }
  }

  // ---- Subframes in order ----

  predicate Increasing(xs: seq<nat>) {
    forall i, j :: 0 <= i < j < |xs| ==> xs[i] < xs[j]
  }

  // Every task stands for its own subframe and they are pushed in the order of subframes.
  predicate Clocked(s: State) {
    && s.tti == s.clock % 10240
    && |s.stamps| == |s.pushed| && Increasing(s.stamps)
    && (forall i :: 0 <= i < |s.stamps| ==> s.pushed[i].tti == s.stamps[i] % 10240)
    && (forall i :: 0 <= i < |s.stamps| ==> if s.main.Filling? || s.main.Locking? then s.stamps[i] < s.clock
                                            else s.stamps[i] <= s.clock)
  }

  lemma ClockStepped(clock: nat)
    ensures (clock % 10240 + 1) % 10240 == (clock + 1) % 10240
  {
  }

  lemma StepKeepsClock(s: State, a: Action)
    requires s.n > 0 && Clocked(s) && Enabled(s, a)
    ensures Clocked(Next(s, a))
  {
    ClockStepped(s.clock);
  }

  // ---- Whose turn it is ----

  // The k-th MBSFN subframe goes to processor k modulo n, and CAS subframes, and no others, to
  // the CAS processor.
  predicate Dispatched(s: State) {
    && s.n > 0 && s.mbIdx == |s.turns| % s.n
    && (forall k :: 0 <= k < |s.turns| ==> s.turns[k] == k % s.n)
    && (s.main.Locking? || s.main.Filling? ==> s.main.proc == Processor(s, s.tti))
    && (forall i :: 0 <= i < |s.pushed| ==> (s.pushed[i].proc == s.n <==> IsCas(s.dedicated, s.pushed[i].tti)))
  }

  lemma NextTurn(k: nat, n: nat)
    requires n > 0
    ensures 0 <= k % n < n && (k % n + 1) % n == (k + 1) % n
  {
    DivIdentity(k, n);
    if k % n + 1 == n {
      Distribute(k / n, 1, n);
      DivModUnique(k + 1, n, k / n + 1, 0);
      DivModUnique(n, n, 1, 0);
    } else {
      DivModUnique(k + 1, n, k / n, k % n + 1);
      DivModUnique(k % n + 1, n, 0, k % n + 1);
    }
  }

  lemma StepKeepsTurns(s: State, a: Action)
    requires Dispatched(s) && Enabled(s, a)
    ensures Dispatched(Next(s, a))
  {
    NextTurn(|s.turns|, s.n);
  }

  lemma {:induction false} RunsKeepTurns(s: State, actions: seq<Action>, t: State)
    requires Dispatched(s) && Reachable(s, actions, t)
    ensures Dispatched(t)
    decreases |actions|
  {
    if actions != [] {
      StepKeepsTurns(s, actions[0]);
      RunsKeepTurns(Next(s, actions[0]), actions[1..], t);
    }
  }

  // ---- No subframe is skipped ----

  // The subframes after from and up to upTo that are not CAS subframes, in order.
  function NonCas(dedicated: bool, from: nat, upTo: nat): seq<nat>
    decreases upTo
  {
    if upTo <= from then []
    else NonCas(dedicated, from, upTo - 1) + (if IsCas(dedicated, upTo % 10240) then [] else [upTo])
  }

  // The last subframe that main is done with.
  function DealtWith(s: State): int {
    if s.main == Stepping then s.clock else s.clock - 1
  }

  // Since subframe start every subframe was handed on or discarded, but for the one that main is
  // at or has ended with; and the turns are those of the subframes that are not for CAS, in
  // order and without a gap.
  predicate Covered(s: State, start: nat) {
    && s.n > 0 && s.tti == s.clock % 10240
    && start <= s.clock && (s.main != Stepping ==> start < s.clock)
    && (forall c :: start < c <= DealtWith(s) ==> c in s.stamps || c in s.discards)
    && |s.turns| == |s.turnStamps| && s.turnStamps == NonCas(s.dedicated, start, DealtWith(s))
    && (s.main.Locking? || s.main.Filling? ==> s.main.proc == Processor(s, s.tti))
    && s.mbIdx < s.n
  }

  lemma StepCovers(s: State, a: Action, start: nat)
    requires Covered(s, start) && Enabled(s, a)
    ensures Covered(Next(s, a), start)
  {
    ClockStepped(s.clock);
    if a.Hand? || a.Discard? {
      var s' := Next(s, a);
      forall c | start < c <= DealtWith(s') ensures c in s'.stamps || c in s'.discards {
        if c == s.clock {
          assert if a.Hand? then c == s'.stamps[|s.stamps|] else c == s'.discards[|s.discards|];
        }
      }
      NextTurn(s.mbIdx, s.n);
    }
  }

  function Advances(actions: seq<Action>): nat {
    if actions == [] then 0 else (if actions[0].Advance? || actions[0].Restart? then 1 else 0) + Advances(actions[1..])
  }

  lemma {:induction false} RunsCover(s: State, actions: seq<Action>, t: State, start: nat)
    requires Covered(s, start) && Reachable(s, actions, t)
    ensures Covered(t, start) && t.dedicated == s.dedicated && t.n == s.n
    ensures t.clock == s.clock + Advances(actions)
    decreases |actions|
  {
    if actions != [] {
      StepCovers(s, actions[0], start);
      RunsCover(Next(s, actions[0]), actions[1..], t, start);
    }
  }

  // An episode goes through every subframe once: as many as it has advanced; each was handed on
  // or discarded, but for the last; and its k-th turn is the k-th subframe that is not for CAS.
  lemma EpisodeSkipsNothing(s: State, actions: seq<Action>, t: State)
    requires Init(s) && Reachable(s, actions, t)
    ensures t.clock - s.tti == Advances(actions)
    ensures forall c :: s.tti < c < t.clock ==> c in t.stamps || c in t.discards
    ensures t.main == Stepping && s.tti < t.clock ==> t.clock in t.stamps || t.clock in t.discards
    ensures |t.turns| == |t.turnStamps|
    ensures t.turnStamps == NonCas(s.dedicated, s.tti, if t.main == Stepping then t.clock else t.clock - 1)
  {
    InitCovers(s);
    RunsCover(s, actions, t, s.tti);
  }

  lemma InitCovers(s: State)
    requires Init(s)
    ensures Covered(s, s.tti) && InTurn(s)
  {
    DivModUnique(s.tti, 10240, 0, s.tti);
  }

  // A task pushed for an MBSFN subframe is for the processor whose turn that subframe is.
  predicate InTurn(s: State) {
    && |s.stamps| == |s.pushed| && |s.turns| == |s.turnStamps|
    && forall i :: 0 <= i < |s.pushed| && s.pushed[i].proc < s.n ==>
         exists k :: 0 <= k < |s.turns| && s.turnStamps[k] == s.stamps[i] && s.turns[k] == s.pushed[i].proc
  }

  lemma StepKeepsInTurn(s: State, a: Action)
    requires s.n > 0 && InTurn(s) && Enabled(s, a)
    ensures InTurn(Next(s, a))
  {
    var s' := Next(s, a);
    forall i | 0 <= i < |s'.pushed| && s'.pushed[i].proc < s'.n
      ensures exists k :: 0 <= k < |s'.turns| && s'.turnStamps[k] == s'.stamps[i] && s'.turns[k] == s'.pushed[i].proc
    {
      if i < |s.pushed| {
        var k :| 0 <= k < |s.turns| && s.turnStamps[k] == s.stamps[i] && s.turns[k] == s.pushed[i].proc;
        assert s'.turnStamps[k] == s'.stamps[i] && s'.turns[k] == s'.pushed[i].proc;
      } else {
        var k := |s.turns|;
        assert s'.turnStamps[k] == s'.stamps[i] && s'.turns[k] == s'.pushed[i].proc;
      }
    }
  }

  lemma {:induction false} RunsKeepInTurn(s: State, actions: seq<Action>, t: State)
    requires s.n > 0 && InTurn(s) && Reachable(s, actions, t)
    ensures InTurn(t)
    decreases |actions|
  {
    if actions != [] {
      StepKeepsInTurn(s, actions[0]);
      RunsKeepInTurn(Next(s, actions[0]), actions[1..], t);
    }
  }

  lemma {:induction false} NonCasBetween(dedicated: bool, from: nat, upTo: nat, k: nat)
    requires k < |NonCas(dedicated, from, upTo)|
    ensures var xs := NonCas(dedicated, from, upTo);
            && from < xs[k] <= upTo && !IsCas(dedicated, xs[k] % 10240)
            && (forall c :: xs[k] < c < (if k + 1 < |xs| then xs[k + 1] else upTo + 1) ==> IsCas(dedicated, c % 10240))
            && (k + 1 < |xs| ==> xs[k] < xs[k + 1] <= upTo && !IsCas(dedicated, xs[k + 1] % 10240))
    decreases upTo
  {
    var shorter := NonCas(dedicated, from, upTo - 1);
    if k < |shorter| {
      NonCasBetween(dedicated, from, upTo - 1, k);
    }
  }

  // Consecutive turns are consecutive MBSFN subframes, so the index in the scheduling period
  // goes from turn to turn as it does from one MBSFN subframe to the next.
  lemma TurnsAreConsecutive(s: State, start: nat, k: nat)
    requires Covered(s, start) && k + 1 < |s.turnStamps|
    ensures NextMbsfn(s.dedicated, s.turnStamps[k] % 10240) == s.turnStamps[k + 1] % 10240
  {
    NonCasBetween(s.dedicated, start, DealtWith(s), k);
    NextAfterGap(s.dedicated, s.turnStamps[k], s.turnStamps[k + 1]);
  }

  lemma NextAfterGap(dedicated: bool, a: nat, b: nat)
    requires a < b && !IsCas(dedicated, a % 10240) && !IsCas(dedicated, b % 10240)
    requires forall c :: a < c < b ==> IsCas(dedicated, c % 10240)
    ensures NextMbsfn(dedicated, a % 10240) == b % 10240
  {
    var first, second, third := (a + 1) % 10240, (a + 2) % 10240, (a + 3) % 10240;
    ClockStepped(a);
    ClockStepped(a + 1);
    ClockStepped(a + 2);
    assert StepTti(a % 10240) == first && StepTti(first) == second && StepTti(second) == third;
    CasOrMbsfn(dedicated, a % 10240);
    CasOrMbsfn(dedicated, first);
    CasOrMbsfn(dedicated, second);
    CasOrMbsfn(dedicated, third);
    NextIsNear(dedicated, a % 10240);
    InsideGap(dedicated, a, b, a + 1);
    InsideGap(dedicated, a, b, a + 2);
    InsideGap(dedicated, a, b, a + 3);
  }

  lemma InsideGap(dedicated: bool, a: nat, b: nat, c: nat)
    requires forall c :: a < c < b ==> IsCas(dedicated, c % 10240)
    ensures a < c < b ==> IsCas(dedicated, c % 10240)
  {
  }

  lemma {:induction false} RunsKeepClock(s: State, actions: seq<Action>, t: State)
    requires s.n > 0 && Clocked(s) && Reachable(s, actions, t)
    ensures Clocked(t)
    decreases |actions|
  {
    if actions != [] {
      StepKeepsClock(s, actions[0]);
      RunsKeepClock(Next(s, actions[0]), actions[1..], t);
    }
  }

  lemma {:induction false} ForPrefix(a: seq<Task>, b: seq<Task>, p: nat)
    ensures For(a, p) <= For(a + b, p)
  {
    if b == [] {
      assert a + b == a;
    } else {
      var k := |b| - 1;
      assert (a + b)[..|a| + k] == a + b[..k];
      ForPrefix(a, b[..k], p);
    }
  }

  // What a processor has finished is the beginning of what main has given it.
  lemma FinishedInOrder(s: State, p: nat)
    requires Invariant(s)
    ensures For(s.done, p) <= For(s.pushed, p)
    ensures |For(s.started, p)| <= |For(s.done, p)| + 1
  {
    ForPrefix(s.started, s.queue, p);
    if InWork(s, p) {
      var w :| 0 <= w < |s.workers| && s.workers[w].Running? && s.workers[w].task.proc == p;
    }
  }

  // Every interleaving of an episode keeps the lock protocol: a processor is locked exactly when
  // main holds it or one task for it is queued or running, few tasks hold one, and main only
  // ever waits for a task.
  lemma EpisodeKeepsLocks(s: State, actions: seq<Action>, t: State)
    requires Init(s) && Reachable(s, actions, t)
    ensures Invariant(t)
    ensures forall p: nat :: p <= t.n ==> (t.locked[p] <==> HeldByMain(t, p) || Queued(t, p) || InWork(t, p))
    ensures |t.queue| + |Holding(t.workers)| <= t.n + 1
    ensures t.main.Locking? && t.locked[t.main.proc] ==> Queued(t, t.main.proc) || InWork(t, t.main.proc)
  {
    InitEstablishes(s);
    RunsKeepInvariant(s, actions, t);
    FewHolders(t);
  }

  // Tasks start once and in the order they were pushed, and every processor finishes its own in
  // that order, with at most one unfinished.
  lemma EpisodeKeepsOrder(s: State, actions: seq<Action>, t: State)
    requires Init(s) && Reachable(s, actions, t)
    ensures t.pushed == t.started + t.queue
    ensures forall p: nat :: For(t.done, p) <= For(t.pushed, p) && |For(t.started, p)| <= |For(t.done, p)| + 1
  {
    InitEstablishes(s);
    RunsKeepInvariant(s, actions, t);
    forall p: nat
      ensures For(t.done, p) <= For(t.pushed, p) && |For(t.started, p)| <= |For(t.done, p)| + 1
    {
      FinishedInOrder(t, p);
    }
  }

  // Tasks are pushed in the order of subframes, and processors take turns.
  lemma EpisodeTakesTurns(s: State, actions: seq<Action>, t: State)
    requires Init(s) && Reachable(s, actions, t)
    ensures Clocked(t) && Dispatched(t) && InTurn(t)
  {
    InitCovers(s);
    RunsKeepInTurn(s, actions, t);
    RunsKeepClock(s, actions, t);
    NextTurn(0, s.n);
    RunsKeepTurns(s, actions, t);
  }

  // Everything claimed of an episode, for every state that any interleaving leads to.
  lemma EpisodeIsSafe(s: State, actions: seq<Action>, t: State)
    requires Init(s) && Reachable(s, actions, t)
    ensures Invariant(t) && Clocked(t) && Dispatched(t) && InTurn(t)
    ensures t.clock - s.tti == Advances(actions)
    ensures forall c :: s.tti < c < t.clock ==> c in t.stamps || c in t.discards
    ensures forall p: nat :: p <= t.n ==> (t.locked[p] <==> HeldByMain(t, p) || Queued(t, p) || InWork(t, p))
    ensures |t.queue| + |Holding(t.workers)| <= t.n + 1
    ensures t.main.Locking? && t.locked[t.main.proc] ==> Queued(t, t.main.proc) || InWork(t, t.main.proc)
    ensures t.pushed == t.started + t.queue
    ensures forall p: nat :: For(t.done, p) <= For(t.pushed, p) && |For(t.started, p)| <= |For(t.done, p)| + 1
  {
    EpisodeKeepsLocks(s, actions, t);
    EpisodeKeepsOrder(s, actions, t);
    EpisodeTakesTurns(s, actions, t);
    EpisodeSkipsNothing(s, actions, t);
  }

  // ---- A lock that an episode leaves behind ----

  // Locked, but held by neither main nor a task.
  predicate Orphaned(s: State, p: nat) {
    p < |s.locked| && s.locked[p] && s.main != Filling(p) && !Queued(s, p) && !InWork(s, p)
  }

  // A failed fetch leaves its processor in this state as soon as main moves on. Synchronising
  // again frees the MBSFN processors, not the CAS processor.
  function Resynchronised(s: State): State {
    s.(locked := seq(|s.locked|, p requires 0 <= p < |s.locked| => p >= s.n && s.locked[p]), main := Stepping, mbIdx := 0)
  }

  lemma FailedFetchOrphans(s: State)
    requires Invariant(s) && s.main == Ended(Some(s.n))
    ensures Orphaned(Resynchronised(s), s.n)
  {
    assert HeldByMain(s, s.n);
    var s' := Resynchronised(s);
    assert Queued(s', s.n) == Queued(s, s.n) && InWork(s', s.n) == InWork(s, s.n);
  }

  // Resynchronising leaves a processor orphaned exactly if it is the CAS processor and its
  // fetch has failed.
  lemma OrphanedExactly(s: State, p: nat)
    requires Invariant(s) && s.main.Ended?
    ensures Orphaned(Resynchronised(s), p) <==> p == s.n && s.main == Ended(Some(p))
  {
    if p == s.n {
      assert HeldByMain(s, p) <==> s.main == Ended(Some(p));
      var s' := Resynchronised(s);
      assert Queued(s', p) == Queued(s, p) && InWork(s', p) == InWork(s, p);
    }
  }

  lemma SameWork(s: State)
    requires |s.locked| == s.n + 1
    ensures forall p: nat :: Queued(Resynchronised(s), p) == Queued(s, p) && InWork(Resynchronised(s), p) == InWork(s, p)
  {
  }

  // No MBSFN processor still has work.
  predicate MbsfnIdle(s: State) {
    forall p: nat :: p < s.n ==> !Queued(s, p) && !InWork(s, p)
  }

  lemma ResynchronisedLocks(s: State)
    requires Invariant(s) && s.main.Ended?
    ensures LockedByHolder(Resynchronised(s)) <==> s.main != Ended(Some(s.n)) && MbsfnIdle(s)
  {
    var s' := Resynchronised(s);
    SameWork(s);
    assert HeldByMain(s, s.n) <==> s.main == Ended(Some(s.n));
    if s.main == Ended(Some(s.n)) {
      FailedFetchOrphans(s);
    } else if LockedByHolder(s') {
      forall p: nat | p < s.n ensures !Queued(s, p) && !InWork(s, p) {
        assert !s'.locked[p];
      }
    }
  }

  lemma ResynchronisedOrder(s: State)
    requires Invariant(s) && s.main.Ended?
    ensures InOrder(Resynchronised(s))
  {
    SameWork(s);
  }

  // The lock protocol survives an episode's end and resynchronisation exactly if it was not a
  // CAS fetch that failed, and no MBSFN processor that is unlocked still has work.
  lemma ResynchronisedExactly(s: State)
    requires Invariant(s) && s.main.Ended?
    ensures Invariant(Resynchronised(s)) <==> s.main != Ended(Some(s.n)) && MbsfnIdle(s)
  {
    ResynchronisedLocks(s);
    ResynchronisedOrder(s);
    assert Shaped(Resynchronised(s)) && OneHolder(Resynchronised(s));
  }

  // It happens: an episode whose first subframe is a CAS subframe that cannot be fetched.
  lemma CasFetchCanFail(s: State) returns (actions: seq<Action>, t: State)
    requires Init(s) && s.n == 1 && s.dedicated && s.tti == 39
    ensures Reachable(s, actions, t) && t.main == Ended(Some(t.n)) && Orphaned(Resynchronised(t), t.n)
  {
    actions := [Advance, Lock, FetchFails];
    var a := Next(s, Advance);
    var b := Next(a, Lock);
    t := Next(b, FetchFails);
    assert Reachable(t, [], t);
    assert actions[2..] == [FetchFails] && Reachable(b, actions[2..], t);
    assert actions[1..] == [Lock, FetchFails] && actions[1..][1..] == actions[2..] && Reachable(a, actions[1..], t);
    InitEstablishes(s);
    RunsKeepInvariant(s, actions, t);
    FailedFetchOrphans(t);
  }

  lemma OrphanStays(s: State, a: Action, p: nat)
    requires s.n > 0 && Orphaned(s, p) && Enabled(s, a)
    ensures Orphaned(Next(s, a), p)
  {
    assert forall i :: 0 <= i < |s.queue| ==> s.queue[i].proc != p;
    assert forall w :: 0 <= w < |s.workers| && s.workers[w].Running? ==> s.workers[w].task.proc != p;
  }

  // After a CAS fetch has failed once, no interleaving ever gives main the CAS processor
  // again: the next CAS subframe waits for a lock that nobody will release.
  lemma {:induction false} OrphanIsNeverLockedAgain(s: State, actions: seq<Action>, t: State, p: nat)
    requires s.n > 0 && Orphaned(s, p) && Reachable(s, actions, t)
    ensures Orphaned(t, p)
    ensures t.main == Locking(p) ==> !Enabled(t, Lock)
    decreases |actions|
  {
    if actions != [] {
      OrphanStays(s, actions[0], p);
      OrphanIsNeverLockedAgain(Next(s, actions[0]), actions[1..], t, p);
    }
  }
}
