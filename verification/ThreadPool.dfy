/** The thread pool as a system of atomic steps: every section that holds the pool's mutex, every
    read of `running_` and every task body is one step, and steps of different threads interleave
    freely.  Tasks are numbered in the order in which they are added.
 */
module ThreadPools {

  /** Where a worker thread stands in Loop and FetchTask.  Woken has left the wait and will take
      the mutex and test again, just like Fetching. */
  datatype Worker = Testing | Fetching | Asleep | Woken | Running(task: nat) | Exited

  /** The thread that calls Start, WaitAllTasks and Stop. */
  datatype Caller = Free | Waiting | Rechecking | Joining

  datatype Pool = Pool(threadsNum: nat, running: bool, queue: seq<nat>, workers: seq<Worker>,
                       caller: Caller, added: nat, done: seq<nat>)

  /** Add(w) wakes worker w if any worker sleeps; the two last steps are spurious wakeups. */
  datatype Step =
    | Start | Add(wake: nat) | Wait | Recheck | Stop | Joined
    | Test(i: nat) | Fetch(i: nat) | Finish(i: nat)
    | SpuriousWorker(i: nat) | SpuriousCaller

  function Initial(threadsNum: nat): Pool {
    Pool(threadsNum, false, [], [], Free, 0, [])
  }

  predicate SomeAsleep(s: Pool) {
    exists i :: 0 <= i < |s.workers| && s.workers[i].Asleep?
  }

  predicate AllExited(s: Pool) {
    forall i | 0 <= i < |s.workers| :: s.workers[i].Exited?
  }

  predicate Enabled(s: Pool, step: Step) {
    match step
    case Start => s.caller.Free?
    case Add(w) => SomeAsleep(s) ==> w < |s.workers| && s.workers[w].Asleep?
    case Wait => s.caller.Free?
    case Recheck => s.caller.Rechecking?
    case Stop => s.caller.Free?
    case Joined => s.caller.Joining? && AllExited(s)
    case Test(i) => i < |s.workers| && s.workers[i].Testing?
    case Fetch(i) => i < |s.workers| && (s.workers[i].Fetching? || s.workers[i].Woken?)
    case Finish(i) => i < |s.workers| && s.workers[i].Running?
    case SpuriousWorker(i) => i < |s.workers| && s.workers[i].Asleep?
    case SpuriousCaller => s.caller.Waiting?
  }

  function WakeAll(workers: seq<Worker>): (r: seq<Worker>)
    ensures |r| == |workers|
    ensures forall i | 0 <= i < |r| :: r[i] == if workers[i].Asleep? then Woken else workers[i]
  {
    if workers == [] then []
    else [if workers[0].Asleep? then Woken else workers[0]] + WakeAll(workers[1..])
  }

  function StartAll(n: nat): (r: seq<Worker>)
    ensures |r| == n && forall i | 0 <= i < n :: r[i] == Testing
  {
    if n == 0 then [] else [Testing] + StartAll(n - 1)
  }

  function FetchBy(s: Pool, i: nat): Pool
    requires i < |s.workers|
  {
    if !s.running then s.(workers := s.workers[i := Testing])
    else if s.queue == [] then s.(workers := s.workers[i := Asleep])
    else s.(workers := s.workers[i := Running(s.queue[0])], queue := s.queue[1..],
            caller := if s.caller.Waiting? then Rechecking else s.caller)
  }

  function Next(s: Pool, step: Step): Pool
    requires Enabled(s, step)
  {
    match step
    case Start =>
      if s.running || s.threadsNum == 0 then s
      else s.(running := true, workers := s.workers + StartAll(s.threadsNum))
    case Add(w) =>
      s.(queue := s.queue + [s.added], added := s.added + 1,
         workers := if SomeAsleep(s) then s.workers[w := Woken] else s.workers)
    case Wait => if s.queue == [] then s else s.(caller := Waiting)
    case Recheck => if s.queue == [] then s.(caller := Free) else s.(caller := Waiting)
    case Stop =>
      if !s.running then s
      else s.(running := false, workers := WakeAll(s.workers), caller := Joining)
    case Joined => s.(workers := [], caller := Free)
    case Test(i) => s.(workers := s.workers[i := if s.running then Fetching else Exited])
    case Fetch(i) => FetchBy(s, i)
    case Finish(i) => s.(done := s.done + [s.workers[i].task], workers := s.workers[i := Testing])
    case SpuriousWorker(i) => s.(workers := s.workers[i := Woken])
    case SpuriousCaller => s.(caller := Rechecking)
  }

  // ---------------------------------------------------------------------------------------
  // Counting over the workers
  // ---------------------------------------------------------------------------------------

  function TaskOf(w: Worker): multiset<nat> {
    if w.Running? then multiset{w.task} else multiset{}
  }

  function InFlight(workers: seq<Worker>): multiset<nat> {
    if workers == [] then multiset{} else TaskOf(workers[0]) + InFlight(workers[1..])
  }

  predicate Looking(w: Worker) {
    w.Testing? || w.Fetching? || w.Woken?
  }

  function Lookers(workers: seq<Worker>): nat {
    if workers == [] then 0 else (if Looking(workers[0]) then 1 else 0) + Lookers(workers[1..])
  }

  /** Steps a worker can still make before it sleeps or exits, a task in the queue aside. */
  function Effort(running: bool, w: Worker): nat {
    match w
    case Running(_) => 3
    case Testing => if running then 2 else 1
    case Fetching => if running then 1 else 2
    case Woken => if running then 1 else 2
    case Asleep => 0
    case Exited => 0
  }

  function Efforts(running: bool, workers: seq<Worker>): nat {
    if workers == [] then 0 else Effort(running, workers[0]) + Efforts(running, workers[1..])
  }

  lemma {:induction false} UpdateInFlight(workers: seq<Worker>, i: nat, w: Worker)
    requires i < |workers|
    ensures InFlight(workers[i := w]) + TaskOf(workers[i]) == InFlight(workers) + TaskOf(w)
  {
    var after := workers[i := w];
    if i == 0 {
      assert after[1..] == workers[1..];
    } else {
      var rest := workers[1..];
      assert after[1..] == rest[i - 1 := w];
      UpdateInFlight(rest, i - 1, w);
      var first, x, y := TaskOf(workers[0]), InFlight(rest[i - 1 := w]), InFlight(rest);
      assert (first + x) + TaskOf(rest[i - 1]) == first + (x + TaskOf(rest[i - 1]));
      assert (first + y) + TaskOf(w) == first + (y + TaskOf(w));
    }
  }

  lemma {:induction false} UpdateLookers(workers: seq<Worker>, i: nat, w: Worker)
    requires i < |workers|
    ensures Lookers(workers[i := w]) + (if Looking(workers[i]) then 1 else 0)
         == Lookers(workers) + (if Looking(w) then 1 else 0)
  {
    if i == 0 {
      assert workers[i := w][1..] == workers[1..];
    } else {
      assert workers[i := w][1..] == workers[1..][i - 1 := w];
      UpdateLookers(workers[1..], i - 1, w);
    }
  }

  lemma {:induction false} UpdateEfforts(workers: seq<Worker>, i: nat, w: Worker, running: bool)
    requires i < |workers|
    ensures Efforts(running, workers[i := w]) + Effort(running, workers[i])
         == Efforts(running, workers) + Effort(running, w)
  {
    if i == 0 {
      assert workers[i := w][1..] == workers[1..];
    } else {
      assert workers[i := w][1..] == workers[1..][i - 1 := w];
      UpdateEfforts(workers[1..], i - 1, w, running);
    }
  }

  lemma {:induction false} WakeAllCounts(workers: seq<Worker>)
    ensures InFlight(WakeAll(workers)) == InFlight(workers)
  {
    if workers != [] {
      WakeAllCounts(workers[1..]);
      assert WakeAll(workers)[1..] == WakeAll(workers[1..]);
    }
  }

  lemma {:induction false} StartAllCounts(n: nat)
    ensures InFlight(StartAll(n)) == multiset{} && Lookers(StartAll(n)) == n
  {
    if n > 0 {
      StartAllCounts(n - 1);
      assert StartAll(n)[1..] == StartAll(n - 1);
    }
  }

  lemma {:induction false} IdleWorkersHoldNoTask(workers: seq<Worker>)
    requires forall i | 0 <= i < |workers| :: !workers[i].Running?
    ensures InFlight(workers) == multiset{}
  {
    if workers != [] { IdleWorkersHoldNoTask(workers[1..]); }
  }

  lemma {:induction false} SomeoneLooks(workers: seq<Worker>) returns (i: nat)
    requires 0 < Lookers(workers)
    ensures i < |workers| && Looking(workers[i])
  {
    if Looking(workers[0]) {
      i := 0;
    } else {
      var j := SomeoneLooks(workers[1..]);
      i := j + 1;
    }
  }

  // ---------------------------------------------------------------------------------------
  // What every step keeps
  // ---------------------------------------------------------------------------------------

  function Tasks(n: nat): multiset<nat> {
    if n == 0 then multiset{} else Tasks(n - 1) + multiset{n - 1}
  }

  function Fetched(s: Pool): int {
    s.added - |s.queue|
  }

  /** The queue holds the tasks added last, oldest first; every earlier task is in the hands of
      one worker or has been finished once. */
  predicate Conserved(s: Pool) {
    && 0 <= Fetched(s)
    && (forall k | 0 <= k < |s.queue| :: s.queue[k] == Fetched(s) + k)
    && InFlight(s.workers) + multiset(s.done) == Tasks(Fetched(s))
  }

  predicate Threaded(s: Pool) {
    && (s.running ==> 0 < s.threadsNum == |s.workers|
                      && forall i | 0 <= i < |s.workers| :: !s.workers[i].Exited?)
    && (s.caller.Joining? ==> !s.running)
    && (!s.running && !s.caller.Joining? ==> s.workers == [])
  }

  /** No wakeup is lost: a stopped pool has no sleeper, the waiting caller sleeps only on a
      nonempty queue, and while some worker sleeps there are enough others on their way to the
      queue to take everything in it. */
  predicate Alert(s: Pool) {
    && (!s.running ==> !SomeAsleep(s))
    && (s.caller.Waiting? ==> s.queue != [])
    && (SomeAsleep(s) ==> |s.queue| <= Lookers(s.workers))
  }

  predicate Inv(s: Pool) {
    Conserved(s) && Threaded(s) && Alert(s)
  }

  lemma InitialInv(threadsNum: nat)
    ensures Inv(Initial(threadsNum))
  {
  }

  /** A worker changes its state; if it finishes a task, the task moves to the finished ones. */
  lemma ConservedByWorker(s: Pool, t: Pool, i: nat)
    requires Conserved(s) && i < |s.workers| == |t.workers| && t.workers == s.workers[i := t.workers[i]]
    requires t.queue == s.queue && t.added == s.added
    requires multiset(t.done) + TaskOf(t.workers[i]) == multiset(s.done) + TaskOf(s.workers[i])
    ensures Conserved(t)
  {
    hide InFlight;
    UpdateInFlight(s.workers, i, t.workers[i]);
    var a, b, x, y := InFlight(s.workers), InFlight(t.workers), TaskOf(s.workers[i]), TaskOf(t.workers[i]);
    forall e ensures (b + multiset(t.done))[e] == (a + multiset(s.done))[e] {
      assert (b + x)[e] == (a + y)[e] && (multiset(t.done) + y)[e] == (multiset(s.done) + x)[e];
    }
  }

  lemma ConservedByStart(s: Pool)
    requires Conserved(s) && s.workers == []
    ensures Conserved(s.(running := true, workers := s.workers + StartAll(s.threadsNum)))
  {
    StartAllCounts(s.threadsNum);
    assert [] + StartAll(s.threadsNum) == StartAll(s.threadsNum);
  }

  lemma ConservedByJoin(s: Pool)
    requires Conserved(s) && AllExited(s)
    ensures Conserved(s.(workers := [], caller := Free))
  {
    IdleWorkersHoldNoTask(s.workers);
  }

  lemma ConservedByFinish(s: Pool, i: nat)
    requires Conserved(s) && i < |s.workers| && s.workers[i].Running?
    ensures Conserved(s.(done := s.done + [s.workers[i].task], workers := s.workers[i := Testing]))
  {
    hide InFlight;
    ConservedByWorker(s, s.(done := s.done + [s.workers[i].task], workers := s.workers[i := Testing]), i);
  }

  lemma ConservedByFetch(s: Pool, i: nat)
    requires Conserved(s) && i < |s.workers| && !s.workers[i].Running? && s.running && s.queue != []
    ensures Conserved(FetchBy(s, i))
  {
    hide InFlight;
    var t := FetchBy(s, i);
    UpdateInFlight(s.workers, i, t.workers[i]);
    assert s.queue[0] == Fetched(s);
    assert InFlight(t.workers) == InFlight(s.workers) + multiset{Fetched(s)};
    forall k | 0 <= k < |t.queue| ensures t.queue[k] == Fetched(t) + k {
      assert t.queue[k] == s.queue[k + 1];
    }
  }

  lemma ConservedByAdd(s: Pool, workers: seq<Worker>)
    requires Conserved(s) && InFlight(workers) == InFlight(s.workers)
    ensures Conserved(s.(queue := s.queue + [s.added], added := s.added + 1, workers := workers))
  {
    hide InFlight, Tasks;
    var t := s.(queue := s.queue + [s.added], added := s.added + 1, workers := workers);
    assert Fetched(t) == Fetched(s);
    forall k | 0 <= k < |t.queue| ensures t.queue[k] == Fetched(t) + k {
      if k < |s.queue| { assert t.queue[k] == s.queue[k]; }
    }
  }

  lemma WokenHoldsNoTask(workers: seq<Worker>, w: nat)
    requires w < |workers| && workers[w].Asleep?
    ensures InFlight(workers[w := Woken]) == InFlight(workers)
  {
    hide InFlight;
    UpdateInFlight(workers, w, Woken);
    assert InFlight(workers) + multiset{} == InFlight(workers);
    assert InFlight(workers[w := Woken]) + multiset{} == InFlight(workers[w := Woken]);
  }

  lemma ConservedByOthers(s: Pool, t: Pool)
    requires Conserved(s) && InFlight(t.workers) == InFlight(s.workers)
    requires t.queue == s.queue && t.added == s.added && t.done == s.done
    ensures Conserved(t)
  {
  }

  lemma ConservedByFetchStep(s: Pool, i: nat)
    requires Conserved(s) && i < |s.workers| && (s.workers[i].Fetching? || s.workers[i].Woken?)
    ensures Conserved(FetchBy(s, i))
  {
    hide InFlight, Conserved;
    if s.running && s.queue != [] {
      ConservedByFetch(s, i);
    } else {
      ConservedByWorker(s, FetchBy(s, i), i);
    }
  }

  lemma NextConserved(s: Pool, step: Step)
    requires Inv(s) && Enabled(s, step)
    ensures Conserved(Next(s, step))
  {
    hide InFlight, Conserved, Alert, Tasks;
    var t := Next(s, step);
    match step
    case Start => if !s.running { ConservedByStart(s); }
    case Add(w) =>
      if SomeAsleep(s) { WokenHoldsNoTask(s.workers, w); }
      ConservedByAdd(s, t.workers);
    case Wait => ConservedByOthers(s, t);
    case Recheck => ConservedByOthers(s, t);
    case Stop =>
      WakeAllCounts(s.workers);
      ConservedByOthers(s, t);
    case Joined => ConservedByJoin(s);
    case Test(i) => ConservedByWorker(s, t, i);
    case Fetch(i) => ConservedByFetchStep(s, i);
    case Finish(i) => ConservedByFinish(s, i);
    case SpuriousWorker(i) => ConservedByWorker(s, t, i);
    case SpuriousCaller => ConservedByOthers(s, t);
  }

  lemma NextThreaded(s: Pool, step: Step)
    requires Inv(s) && Enabled(s, step)
    ensures Threaded(Next(s, step))
  {
    hide InFlight, Lookers, Conserved;
  }

  lemma StaysAlert(s: Pool, t: Pool, i: nat)
    requires Alert(s) && i < |s.workers| == |t.workers| && t.workers == s.workers[i := t.workers[i]]
    requires t.running == s.running && (t.workers[i].Asleep? ==> t.running && t.queue == [])
    requires t.caller.Waiting? ==> t.queue != []
    requires |t.queue| + (if Looking(s.workers[i]) then 1 else 0)
             <= |s.queue| + (if Looking(t.workers[i]) then 1 else 0)
             || t.queue == [] || !t.running
    ensures Alert(t)
  {
    hide Lookers;
    UpdateLookers(s.workers, i, t.workers[i]);
    if SomeAsleep(t) && t.queue != [] {
      var k :| 0 <= k < |t.workers| && t.workers[k].Asleep?;
      assert k != i && s.workers[k].Asleep?;
    }
    assert !t.running ==> forall k | 0 <= k < |s.workers| :: !s.workers[k].Asleep?;
  }

  lemma NextAlert(s: Pool, step: Step)
    requires Inv(s) && Enabled(s, step)
    ensures Alert(Next(s, step))
  {
    hide InFlight, Lookers, Conserved;
    var t := Next(s, step);
    match step
    case Start =>
    case Add(w) => if SomeAsleep(s) { StaysAlert(s, t, w); }
    case Wait =>
    case Recheck =>
    case Stop =>
    case Joined =>
    case Test(i) => StaysAlert(s, t, i);
    case Fetch(i) => StaysAlert(s, t, i);
    case Finish(i) => StaysAlert(s, t, i);
    case SpuriousWorker(i) => StaysAlert(s, t, i);
    case SpuriousCaller =>
  }

  lemma NextInv(s: Pool, step: Step)
    requires Inv(s) && Enabled(s, step)
    ensures Inv(Next(s, step))
  {
    hide InFlight, Lookers, Conserved;
    NextConserved(s, step);
    NextThreaded(s, step);
    NextAlert(s, step);
  }

  // ---------------------------------------------------------------------------------------
  // Runs
  // ---------------------------------------------------------------------------------------

  predicate Runs(s: Pool, steps: seq<Step>)
    decreases |steps|
  {
    steps == [] || (Enabled(s, steps[0]) && Runs(Next(s, steps[0]), steps[1..]))
  }

  function Exec(s: Pool, steps: seq<Step>): Pool
    requires Runs(s, steps)
    decreases |steps|
  {
    if steps == [] then s else Exec(Next(s, steps[0]), steps[1..])
  }

  lemma {:induction false} RunsKeepInv(s: Pool, steps: seq<Step>)
    requires Inv(s) && Runs(s, steps)
    ensures Inv(Exec(s, steps))
    decreases |steps|
  {
    hide Inv, Next;
    if steps != [] {
      NextInv(s, steps[0]);
      RunsKeepInv(Next(s, steps[0]), steps[1..]);
    }
  }

  lemma {:induction false} RunsSplit(s: Pool, a: seq<Step>, b: seq<Step>)
    requires Runs(s, a + b)
    ensures Runs(s, a) && Runs(Exec(s, a), b) && Exec(s, a + b) == Exec(Exec(s, a), b)
    decreases |a|
  {
    hide Next, Enabled;
    if a == [] {
      assert a + b == b;
    } else {
      assert (a + b)[1..] == a[1..] + b;
      RunsSplit(Next(s, a[0]), a[1..], b);
    }
  }

  lemma {:induction false} TasksCount(n: nat, t: nat)
    ensures Tasks(n)[t] == if t < n then 1 else 0
  {
    if n > 0 { TasksCount(n - 1, t); }
  }

  /** In every reachable state each task handed to the pool so far is, exactly once, either still
      queued, in the hands of one worker, or finished; and the next one fetched is the oldest. */
  lemma ExactlyOnce(threadsNum: nat, steps: seq<Step>, t: nat)
    requires Runs(Initial(threadsNum), steps)
    ensures var s := Exec(Initial(threadsNum), steps);
            && multiset(s.queue)[t] + InFlight(s.workers)[t] + multiset(s.done)[t] == (if t < s.added then 1 else 0)
            && (s.queue != [] ==> forall u | u in s.queue :: s.queue[0] <= u)
  {
    InitialInv(threadsNum);
    RunsKeepInv(Initial(threadsNum), steps);
    var s := Exec(Initial(threadsNum), steps);
    QueueCount(s.queue, s.added, t);
    TasksCount(Fetched(s), t);
    assert (InFlight(s.workers) + multiset(s.done))[t] == Tasks(Fetched(s))[t];
  }

  lemma {:induction false} QueueCount(queue: seq<nat>, added: nat, t: nat)
    requires |queue| <= added && forall k | 0 <= k < |queue| :: queue[k] == added - |queue| + k
    ensures multiset(queue)[t] == if added - |queue| <= t < added then 1 else 0
  {
    if queue != [] {
      QueueCount(queue[1..], added, t);
      assert queue == [queue[0]] + queue[1..];
    }
  }

  /** No stranded work: while a running pool has a task queued, some worker is up; and if another
      worker sleeps, as many workers as there are queued tasks are already on their way to them. */
  lemma NoStrandedWork(threadsNum: nat, steps: seq<Step>)
    requires Runs(Initial(threadsNum), steps)
    ensures var s := Exec(Initial(threadsNum), steps);
            s.running && s.queue != [] ==>
              && (exists i :: 0 <= i < |s.workers| && !s.workers[i].Asleep? && !s.workers[i].Exited?)
              && (SomeAsleep(s) ==> |s.queue| <= Lookers(s.workers))
  {
    InitialInv(threadsNum);
    RunsKeepInv(Initial(threadsNum), steps);
    var s := Exec(Initial(threadsNum), steps);
    if s.running && s.queue != [] {
      if SomeAsleep(s) {
        var i := SomeoneLooks(s.workers);
      } else {
        assert !s.workers[0].Asleep?;
      }
    }
  }

  /** The caller of WaitAllTasks sleeps only while something is queued, and no worker of a pool
      that is being stopped is left sleeping. */
  lemma NoLostWakeup(threadsNum: nat, steps: seq<Step>)
    requires Runs(Initial(threadsNum), steps)
    ensures var s := Exec(Initial(threadsNum), steps);
            && (s.caller.Waiting? ==> s.queue != [])
            && (s.caller.Joining? ==> forall i | 0 <= i < |s.workers| :: !s.workers[i].Asleep?)
  {
    InitialInv(threadsNum);
    RunsKeepInv(Initial(threadsNum), steps);
  }

  // ---------------------------------------------------------------------------------------
  // Stop, alone and after WaitAllTasks
  // ---------------------------------------------------------------------------------------

  /** When Stop has joined the workers, the tasks executed are exactly those that had left the
      queue, each once.  So all added tasks were executed if and only if the queue is empty. */
  lemma StopExecutesWhatWasFetched(s: Pool)
    requires Inv(s) && Enabled(s, Joined)
    ensures multiset(s.done) == Tasks(Fetched(s))
    ensures (forall t: nat | t < s.added :: multiset(s.done)[t] == 1) <==> s.queue == []
  {
    IdleWorkersHoldNoTask(s.workers);
    forall t: nat ensures multiset(s.done)[t] == if t < Fetched(s) then 1 else 0 {
      TasksCount(Fetched(s), t);
    }
    if s.queue != [] {
      assert multiset(s.done)[Fetched(s) as nat] == 0;
    }
  }

  predicate NoAdds(steps: seq<Step>) {
    forall k | 0 <= k < |steps| :: !steps[k].Add?
  }

  lemma {:induction false} EmptyQueueStaysEmpty(s: Pool, steps: seq<Step>)
    requires Runs(s, steps) && NoAdds(steps) && s.queue == []
    ensures Exec(s, steps).queue == [] && Exec(s, steps).added == s.added
    decreases |steps|
  {
    if steps != [] {
      assert !steps[0].Add?;
      forall k | 0 <= k < |steps[1..]| ensures !steps[1..][k].Add? {
        assert steps[1..][k] == steps[k + 1];
      }
      EmptyQueueStaysEmpty(Next(s, steps[0]), steps[1..]);
    }
  }

  /** WaitAllTasks returns here: its test finds the queue empty. */
  predicate WaitReturns(s: Pool, step: Step) {
    (step.Wait? || step.Recheck?) && Enabled(s, step) && Next(s, step).caller.Free?
  }

  /** If nothing is added after WaitAllTasks has returned, then at every later moment at which
      Stop has joined all workers every task has run exactly once, in every interleaving. */
  lemma WaitThenStop(s: Pool, wait: Step, later: seq<Step>)
    requires Inv(s) && WaitReturns(s, wait)
    requires Runs(Next(s, wait), later) && NoAdds(later) && Enabled(Exec(Next(s, wait), later), Joined)
    ensures multiset(Exec(Next(s, wait), later).done) == Tasks(s.added)
  {
    hide Inv, Next, Enabled;
    NextInv(s, wait);
    WaitReturnsOnEmptyQueue(s, wait);
    var t := Next(s, wait);
    EmptyQueueStaysEmpty(t, later);
    RunsKeepInv(t, later);
    StopExecutesWhatWasFetched(Exec(t, later));
  }

  lemma WaitReturnsOnEmptyQueue(s: Pool, wait: Step)
    requires WaitReturns(s, wait)
    ensures s.queue == [] && Next(s, wait).queue == [] && Next(s, wait).added == s.added
  {
  }

  lemma {:induction false} RunningHoldsATask(workers: seq<Worker>)
    ensures InFlight(workers) == multiset{} <==> forall i | 0 <= i < |workers| :: !workers[i].Running?
  {
    if workers != [] {
      RunningHoldsATask(workers[1..]);
      if workers[0].Running? {
        assert workers[0].task in TaskOf(workers[0]) + InFlight(workers[1..]);
      } else {
        assert InFlight(workers) == InFlight(workers[1..]);
        assert forall i | 1 <= i < |workers| :: workers[i] == workers[1..][i - 1];
      }
    }
  }

  /** What WaitAllTasks alone is worth: when it returns, every task has run exactly once if and only if no worker is
      in the middle of one. */
  lemma WaitAloneExactly(s: Pool, wait: Step)
    requires Inv(s) && WaitReturns(s, wait)
    ensures multiset(s.done) == Tasks(s.added) <==> forall i | 0 <= i < |s.workers| :: !s.workers[i].Running?
  {
    WaitReturnsOnEmptyQueue(s, wait);
    RunningHoldsATask(s.workers);
    assert InFlight(s.workers) + multiset(s.done) == Tasks(s.added);
    assert InFlight(s.workers) == Tasks(s.added) - multiset(s.done);
  }

  predicate NoJoin(steps: seq<Step>) {
    forall k | 0 <= k < |steps| :: !steps[k].Joined?
  }

  /** A pool being stopped hands out no more tasks. */
  lemma JoiningFreezesTheQueue(s: Pool, step: Step)
    requires s.caller.Joining? && !s.running && Enabled(s, step) && !step.Add? && !step.Joined?
    ensures var t := Next(s, step); t.caller.Joining? && !t.running && t.queue == s.queue && t.added == s.added
  {
  }

  lemma {:induction false} QueueIsFrozen(s: Pool, steps: seq<Step>)
    requires s.caller.Joining? && !s.running && Runs(s, steps) && NoAdds(steps) && NoJoin(steps)
    ensures Exec(s, steps).queue == s.queue && Exec(s, steps).added == s.added
    decreases |steps|
  {
    hide Next, Enabled;
    if steps != [] {
      assert !steps[0].Add? && !steps[0].Joined?;
      JoiningFreezesTheQueue(s, steps[0]);
      forall k | 0 <= k < |steps[1..]| ensures !steps[1..][k].Add? && !steps[1..][k].Joined? {
        assert steps[1..][k] == steps[k + 1];
      }
      QueueIsFrozen(Next(s, steps[0]), steps[1..]);
    }
  }

  lemma StopStep(s: Pool)
    requires s.running && s.caller.Free?
    ensures Enabled(s, Stop)
    ensures var t := Next(s, Stop); t.caller.Joining? && !t.running && t.queue == s.queue && t.added == s.added
  {
  }

  lemma {:induction false} AllTasks(n: nat, m: nat)
    requires m <= n
    ensures Tasks(m) == Tasks(n) <==> m == n
  {
    TasksCount(n, m);
    TasksCount(m, m);
  }

  /** What Stop alone is worth: called on a running pool, with nothing added until it has joined, it leaves every task
      run exactly once if and only if nothing is queued at the moment of the call. */
  lemma StopAloneExactly(s: Pool, stopping: seq<Step>)
    requires Inv(s) && s.running && s.caller.Free?
    requires Enabled(s, Stop) && Runs(Next(s, Stop), stopping) && NoAdds(stopping) && NoJoin(stopping)
    requires Enabled(Exec(Next(s, Stop), stopping), Joined)
    ensures multiset(Exec(Next(s, Stop), stopping).done) == Tasks(s.added) <==> s.queue == []
  {
    hide Inv, Next, Enabled, Tasks;
    StopStep(s);
    NextInv(s, Stop);
    var t := Next(s, Stop);
    QueueIsFrozen(t, stopping);
    RunsKeepInv(t, stopping);
    var end := Exec(t, stopping);
    StopExecutesWhatWasFetched(end);
    FetchedIsNat(end);
    AllTasks(s.added, Fetched(end));
  }

  lemma FetchedIsNat(s: Pool)
    requires Inv(s)
    ensures 0 <= Fetched(s) == s.added - |s.queue|
  {
    hide InFlight, Tasks;
  }

  /** Neither call is enough by itself. */
  lemma StopAloneMayDropTasks()
    ensures var steps := [Start, Add(0), Stop, Test(0)];
            && Runs(Initial(1), steps)
            && var s := Exec(Initial(1), steps);
            Enabled(s, Joined) && s.added == 1 && s.done == []
  {
    var s0 := Initial(1);
    var s1 := Next(s0, Start);
    assert s1.workers == [Testing];
    var s2 := Next(s1, Add(0));
    var s3 := Next(s2, Stop);
    assert s3.workers == [Testing];
    var s4 := Next(s3, Test(0));
    assert s4.workers == [Exited];
    RunsOne(s3, Test(0));
    RunsCons(s2, Stop, [Test(0)]);
    RunsCons(s1, Add(0), [Stop, Test(0)]);
    RunsCons(s0, Start, [Add(0), Stop, Test(0)]);
  }

  lemma WaitAloneMayReturnEarly()
    ensures var steps := [Start, Add(0), Test(0), Fetch(0)];
            && Runs(Initial(1), steps)
            && var s := Exec(Initial(1), steps);
            WaitReturns(s, Wait) && s.added == 1 && s.done == []
  {
    var s0 := Initial(1);
    var s1 := Next(s0, Start);
    assert s1.workers == [Testing];
    var s2 := Next(s1, Add(0));
    var s3 := Next(s2, Test(0));
    RunsOne(s3, Fetch(0));
    RunsCons(s2, Test(0), [Fetch(0)]);
    RunsCons(s1, Add(0), [Test(0), Fetch(0)]);
    RunsCons(s0, Start, [Add(0), Test(0), Fetch(0)]);
  }

  lemma RunsCons(s: Pool, step: Step, rest: seq<Step>)
    requires Enabled(s, step) && Runs(Next(s, step), rest)
    ensures Runs(s, [step] + rest) && Exec(s, [step] + rest) == Exec(Next(s, step), rest)
  {
    hide Next, Enabled;
    assert ([step] + rest)[1..] == rest;
  }

  lemma RunsOne(s: Pool, step: Step)
    requires Enabled(s, step)
    ensures Runs(s, [step]) && Exec(s, [step]) == Next(s, step)
  {
    hide Next, Enabled;
    var none: seq<Step> := [];
    assert [step][1..] == none;
  }

  // ---------------------------------------------------------------------------------------
  // The pool comes to rest
  // ---------------------------------------------------------------------------------------

  /** The steps the pool and a blocked caller take by themselves. */
  predicate Quiet(step: Step) {
    step.Test? || step.Fetch? || step.Finish? || step.Recheck? || step.Joined?
  }

  function Rank(s: Pool): nat {
    4 * |s.queue| + Efforts(s.running, s.workers)
      + (if s.caller.Rechecking? || s.caller.Joining? then 1 else 0)
  }

  lemma QuietStepsLowerTheRank(s: Pool, step: Step)
    requires Enabled(s, step) && Quiet(step)
    ensures Rank(Next(s, step)) < Rank(s)
  {
    hide Efforts;
    var t := Next(s, step);
    match step
    case Test(i) => UpdateEfforts(s.workers, i, t.workers[i], s.running);
    case Fetch(i) => UpdateEfforts(s.workers, i, t.workers[i], s.running);
    case Finish(i) => UpdateEfforts(s.workers, i, t.workers[i], s.running);
    case Joined => NoEffortWithoutWorkers(s.running);
    case _ =>
  }

  lemma NoEffortWithoutWorkers(running: bool)
    ensures Efforts(running, []) == 0
  {
  }

  /** With no further tasks and no spurious wakeups there is no endless run, however the threads
      are scheduled. */
  lemma {:induction false} QuietRunsEnd(s: Pool, steps: seq<Step>)
    requires Runs(s, steps) && forall k | 0 <= k < |steps| :: Quiet(steps[k])
    ensures |steps| + Rank(Exec(s, steps)) <= Rank(s)
    decreases |steps|
  {
    hide Next, Enabled, Rank;
    if steps != [] {
      assert Quiet(steps[0]);
      QuietStepsLowerTheRank(s, steps[0]);
      forall k | 0 <= k < |steps[1..]| ensures Quiet(steps[1..][k]) {
        assert steps[1..][k] == steps[k + 1];
      }
      QuietRunsEnd(Next(s, steps[0]), steps[1..]);
    }
  }

  ghost predicate AtRest(s: Pool) {
    forall step | Quiet(step) :: !Enabled(s, step)
  }

  /** Rest can be reached from every state. */
  lemma {:induction false} RestIsReached(s: Pool) returns (steps: seq<Step>)
    ensures Runs(s, steps) && AtRest(Exec(s, steps))
    ensures forall k | 0 <= k < |steps| :: Quiet(steps[k])
    decreases Rank(s)
  {
    hide Next, Enabled, Rank;
    if AtRest(s) {
      steps := [];
    } else {
      var step :| Quiet(step) && Enabled(s, step);
      QuietStepsLowerTheRank(s, step);
      var rest := RestIsReached(Next(s, step));
      steps := [step] + rest;
      assert steps[1..] == rest;
    }
  }

  /** A running pool comes to rest only when every added task has been executed once and the
      caller is not blocked; a pool being stopped comes to rest only after the join. */
  lemma AtRestMeansDone(s: Pool)
    requires Inv(s) && AtRest(s)
    ensures s.running ==> s.queue == [] && multiset(s.done) == Tasks(s.added) && s.caller.Free?
    ensures !s.caller.Joining?
  {
    hide InFlight, Lookers;
    WorkersAtRest(s);
    assert !Enabled(s, Joined) && !Enabled(s, Recheck) by { assert Quiet(Joined) && Quiet(Recheck); }
    IdleWorkersHoldNoTask(s.workers);
    NobodyLooks(s.workers);
    assert s.running ==> s.workers[0].Asleep?;
    assert multiset{} + multiset(s.done) == multiset(s.done);
  }

  lemma WorkersAtRest(s: Pool)
    requires AtRest(s)
    ensures forall i | 0 <= i < |s.workers| :: s.workers[i].Asleep? || s.workers[i].Exited?
  {
    forall i | 0 <= i < |s.workers| ensures s.workers[i].Asleep? || s.workers[i].Exited? {
      assert Quiet(Test(i)) && Quiet(Fetch(i)) && Quiet(Finish(i));
    }
  }

  lemma {:induction false} NobodyLooks(workers: seq<Worker>)
    requires forall i | 0 <= i < |workers| :: !Looking(workers[i])
    ensures Lookers(workers) == 0
  {
    if workers != [] { NobodyLooks(workers[1..]); }
  }

  /** Without threads, or on a pool that was stopped, WaitAllTasks with a task queued never
      returns: whatever other threads do, the caller stays where it is. */
  lemma {:induction false} WaitingOnAStoppedPoolIsForever(s: Pool, steps: seq<Step>)
    requires !s.running && s.workers == [] && s.queue != [] && (s.caller.Waiting? || s.caller.Rechecking?)
    requires Runs(s, steps)
    ensures var t := Exec(s, steps); t.queue != [] && (t.caller.Waiting? || t.caller.Rechecking?)
    decreases |steps|
  {
    if steps != [] { WaitingOnAStoppedPoolIsForever(Next(s, steps[0]), steps[1..]); }
  }

  // ---------------------------------------------------------------------------------------
  // The class: its locked sections are the steps
  // ---------------------------------------------------------------------------------------

  class ThreadPool {
    const threadsNum: nat
    var running: bool
    var taskQueue: seq<nat>
    /** The threads, each with the place it has reached. */
    var threads: seq<Worker>
    var caller: Caller
    /** The number of tasks added so far; it names the next task. */
    var added: nat
    ghost var done: seq<nat>

    constructor (threadsNum: nat)
      ensures State() == Initial(threadsNum)
    {
      this.threadsNum := threadsNum;
      running, taskQueue, threads, caller, added, done := false, [], [], Free, 0, [];
    }

    ghost function State(): Pool
      reads this
    {
      Pool(threadsNum, running, taskQueue, threads, caller, added, done)
    }

    /** `reserved` tells whether memory for the threads could be had. */
    method Start(reserved: bool) returns (ok: bool)
      requires caller.Free?
      modifies this
      ensures ok <==> !old(running) && 0 < threadsNum && reserved
      ensures State() == if reserved then Next(old(State()), Step.Start) else old(State())
    {
      if running || threadsNum == 0 || !reserved {
        return false;
      }
      running := true;
      for i := 0 to threadsNum
        invariant State() == old(State()).(running := true, workers := old(threads) + StartAll(i))
      {
        assert StartAll(i) + [Testing] == StartAll(i + 1);
        assert (old(threads) + StartAll(i)) + [Testing] == old(threads) + (StartAll(i) + [Testing]);
        threads := threads + [Testing];
      }
      ok := true;
    }

    /** The locked part of Stop: no more fetching, and nobody is left asleep. */
    method StopFetching() returns (ok: bool)
      requires caller.Free?
      modifies this
      ensures State() == Next(old(State()), Stop)
      ensures ok <==> old(running)
    {
      if !running {
        return false;
      }
      running := false;
      for i := 0 to |threads|
        invariant |threads| == |old(threads)|
        invariant State() == old(State()).(running := false, workers := threads)
        invariant forall k | 0 <= k < |threads| ::
                    threads[k] == if k < i then WakeAll(old(threads))[k] else old(threads)[k]
      {
        if threads[i].Asleep? {
          threads := threads[i := Woken];
        }
      }
      assert threads == WakeAll(old(threads));
      caller := Joining;
      ok := true;
    }

    /** The rest of Stop, once every thread has ended. */
    method JoinThreads()
      requires Enabled(State(), Joined)
      modifies this
      ensures State() == Next(old(State()), Joined)
    {
      threads, caller := [], Free;
    }

    /** Which sleeping worker notify_one wakes is up to the system. */
    method AddTask()
      modifies this
      ensures exists w :: Enabled(old(State()), Add(w)) && State() == Next(old(State()), Add(w))
    {
      var w: nat := 0;
      if exists i | 0 <= i < |threads| :: threads[i].Asleep? {
        w :| w < |threads| && threads[w].Asleep?;
        threads := threads[w := Woken];
      }
      taskQueue, added := taskQueue + [added], added + 1;
      assert Enabled(old(State()), Add(w)) && State() == Next(old(State()), Add(w));
    }

    /** The test in WaitAllTasks, at first and after every wakeup. */
    method WaitTest() returns (blocked: bool)
      requires caller.Free? || caller.Rechecking?
      modifies this
      ensures State() == Next(old(State()), if old(caller).Free? then Wait else Recheck)
      ensures blocked <==> taskQueue != []
      ensures !blocked ==> WaitReturns(old(State()), if old(caller).Free? then Wait else Recheck)
    {
      blocked := taskQueue != [];
      caller := if blocked then Waiting else Free;
    }

    /** The locked section of FetchTask that thread i enters, at first and after every wakeup:
        it takes the oldest task, or goes (back) to sleep, or gives up. */
    method FetchTest(i: nat) returns (got: bool)
      requires Enabled(State(), Fetch(i))
      modifies this
      ensures State() == Next(old(State()), Fetch(i))
      ensures got <==> threads[i].Running?
    {
      if taskQueue == [] && running {
        threads := threads[i := Asleep];
        return false;
      }
      if taskQueue != [] && running {
        threads := threads[i := Running(taskQueue[0])];
        taskQueue := taskQueue[1..];
        if caller.Waiting? {
          caller := Rechecking;
        }
        return true;
      }
      threads := threads[i := Testing];
      return false;
    }

    /** The test at the head of Loop. */
    method LoopTest(i: nat)
      requires Enabled(State(), Test(i))
      modifies this
      ensures State() == Next(old(State()), Test(i))
    {
      threads := threads[i := if running then Fetching else Exited];
    }

    /** Thread i has come to the end of what it fetched. */
    method FinishTask(i: nat)
      requires Enabled(State(), Finish(i))
      modifies this
      ensures State() == Next(old(State()), Finish(i))
    {
      done := done + [threads[i].task];
      threads := threads[i := Testing];
    }

    /** A sleeping worker wakes without having been notified. */
    method WakeWorker(i: nat)
      requires Enabled(State(), SpuriousWorker(i))
      modifies this
      ensures State() == Next(old(State()), SpuriousWorker(i))
    {
      threads := threads[i := Woken];
    }

    /** The waiting caller wakes without having been notified. */
    method WakeCaller()
      requires Enabled(State(), SpuriousCaller)
      modifies this
      ensures State() == Next(old(State()), SpuriousCaller)
    {
      caller := Rechecking;
    }
  }
}
