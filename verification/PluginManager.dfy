/** PluginManager::RunAllPlugins on top of the thread pool. */
module PluginManagers {
  import opened Common
  import opened ThreadPools

  /** What Run of a plugin does: it returns a code, or throws, which the pool swallows. */
  datatype Outcome<V> = Returned(code: V) | Threw

  /** Task `base + i` stores the code of plugin i in `res[i]`; tasks of other users of the pool do
      not concern `res`. */
  function Perform<V>(res: seq<V>, base: nat, plugins: seq<Outcome<V>>, task: nat): (r: seq<V>)
    requires |res| == |plugins|
    ensures |r| == |res|
  {
    if base <= task < base + |plugins| && plugins[task - base].Returned?
    then res[task - base := plugins[task - base].code]
    else res
  }

  function PerformAll<V>(res: seq<V>, base: nat, plugins: seq<Outcome<V>>, tasks: seq<nat>): (r: seq<V>)
    requires |res| == |plugins|
    ensures |r| == |res|
    decreases |tasks|
  {
    if tasks == [] then res
    else PerformAll(Perform(res, base, plugins, tasks[0]), base, plugins, tasks[1..])
  }

  lemma {:induction false} PerformAllAt<V>(res: seq<V>, base: nat, plugins: seq<Outcome<V>>, tasks: seq<nat>, i: nat)
    requires |res| == |plugins| && i < |plugins|
    ensures PerformAll(res, base, plugins, tasks)[i]
         == if plugins[i].Returned? && base + i in tasks then plugins[i].code else res[i]
    decreases |tasks|
  {
    if tasks != [] {
      PerformAllAt(Perform(res, base, plugins, tasks[0]), base, plugins, tasks[1..], i);
      assert base + i in tasks <==> base + i == tasks[0] || base + i in tasks[1..];
    }
  }

  /** `resize`: codes already there stay, new places hold the default code. */
  function Resize<V>(res: seq<V>, n: nat, default: V): (r: seq<V>)
    ensures |r| == n
    ensures forall i | 0 <= i < n :: r[i] == if i < |res| then res[i] else default
  {
    if n == 0 then []
    else Resize(res, n - 1, default) + [if n - 1 < |res| then res[n - 1] else default]
  }

  function Adds(steps: seq<Step>): nat {
    if steps == [] then 0 else (if steps[0].Add? then 1 else 0) + Adds(steps[1..])
  }

  lemma {:induction false} AddsAreCounted(s: Pool, steps: seq<Step>)
    requires Runs(s, steps)
    ensures Exec(s, steps).added == s.added + Adds(steps)
    ensures s.done <= Exec(s, steps).done
    decreases |steps|
  {
    if steps != [] {
      AddsAreCounted(Next(s, steps[0]), steps[1..]);
    }
  }

  /** One call of RunAllPlugins with `|plugins|` plugins, seen from outside: up to the return of
      WaitAllTasks exactly its own tasks are added, afterwards none; it ends when Stop has joined.
      Workers may take their steps anywhere in between. */
  predicate RunAllPlugins(s: Pool, adding: seq<Step>, wait: Step, stopping: seq<Step>, n: nat) {
    && Runs(s, adding) && Adds(adding) == n
    && WaitReturns(Exec(s, adding), wait)
    && Runs(Next(Exec(s, adding), wait), stopping) && NoAdds(stopping)
    && Enabled(Exec(Next(Exec(s, adding), wait), stopping), Joined)
  }

  /** When RunAllPlugins returns, res[i] is the code plugin i returned, for every i and in every
      interleaving; the place of a plugin that threw is as resize left it. */
  lemma ResultsAreComplete<V>(s: Pool, adding: seq<Step>, wait: Step, stopping: seq<Step>,
                              plugins: seq<Outcome<V>>, res: seq<V>, default: V)
    requires Inv(s) && RunAllPlugins(s, adding, wait, stopping, |plugins|)
    ensures var t := Exec(Next(Exec(s, adding), wait), stopping);
            var places := Resize(res, |plugins|, default);
            && s.done <= t.done
            && var r := PerformAll(places, s.added, plugins, t.done[|s.done|..]);
            forall i | 0 <= i < |plugins| ::
              r[i] == if plugins[i].Returned? then plugins[i].code else places[i]
  {
    hide Inv, Next, Enabled;
    var t := Exec(Next(Exec(s, adding), wait), stopping);
    var places := Resize(res, |plugins|, default);
    OwnTasksAreDone(s, adding, wait, stopping, |plugins|);
    PerformedAll(places, s.added, plugins, t.done[|s.done|..]);
  }

  lemma PerformedAll<V>(res: seq<V>, base: nat, plugins: seq<Outcome<V>>, tasks: seq<nat>)
    requires |res| == |plugins| && forall i: nat | i < |plugins| :: OwnTaskDone(base, tasks, i)
    ensures var r := PerformAll(res, base, plugins, tasks);
            forall i | 0 <= i < |plugins| :: r[i] == if plugins[i].Returned? then plugins[i].code else res[i]
  {
    forall i | 0 <= i < |plugins|
      ensures PerformAll(res, base, plugins, tasks)[i]
           == if plugins[i].Returned? then plugins[i].code else res[i]
    {
      assert OwnTaskDone(base, tasks, i);
      PerformAllAt(res, base, plugins, tasks, i);
    }
  }

  predicate OwnTaskDone(base: nat, tasks: seq<nat>, i: nat) {
    base + i in tasks
  }

  lemma OwnTasksAreDone(s: Pool, adding: seq<Step>, wait: Step, stopping: seq<Step>, n: nat)
    requires Inv(s) && RunAllPlugins(s, adding, wait, stopping, n)
    ensures var t := Exec(Next(Exec(s, adding), wait), stopping);
            s.done <= t.done && forall i: nat | i < n :: OwnTaskDone(s.added, t.done[|s.done|..], i)
  {
    hide Inv, Next, Enabled, Conserved;
    var mid := Exec(s, adding);
    var t := Exec(Next(mid, wait), stopping);
    RunsKeepInv(s, adding);
    AddsAreCounted(s, adding);
    WaitThenStop(mid, wait, stopping);
    WaitKeepsDone(mid, wait);
    AddsAreCounted(Next(mid, wait), stopping);
    forall i: nat | i < n ensures OwnTaskDone(s.added, t.done[|s.done|..], i) {
      TasksCount(mid.added, s.added + i);
      assert multiset(t.done)[s.added + i] == 1;
      NotYetDone(s, s.added + i);
      assert t.done == s.done + t.done[|s.done|..];
    }
  }

  lemma WaitKeepsDone(s: Pool, wait: Step)
    requires WaitReturns(s, wait)
    ensures Next(s, wait).done == s.done
  {
  }

  lemma NotYetDone(s: Pool, task: nat)
    requires Inv(s) && s.added <= task
    ensures task !in s.done
  {
    TasksCount(Fetched(s), task);
    assert (InFlight(s.workers) + multiset(s.done))[task] == 0;
  }

  /** A pool made for zero threads cannot be started, so with a plugin to run the call never
      gets past WaitAllTasks. */
  lemma {:induction false} NoThreadsNoReturn(s: Pool, adding: seq<Step>, wait: Step)
    requires s.threadsNum == 0 && !s.running && s.workers == [] && s.caller.Free?
    requires Runs(s, adding) && 0 < Adds(adding)
    ensures !WaitReturns(Exec(s, adding), wait)
    decreases |adding|
  {
    StaysUnstarted(s, adding);
  }

  lemma {:induction false} StaysUnstarted(s: Pool, steps: seq<Step>)
    requires s.threadsNum == 0 && !s.running && s.workers == [] && !s.caller.Joining?
    requires Runs(s, steps)
    ensures var t := Exec(s, steps);
            && !t.running && t.workers == [] && |t.queue| == |s.queue| + Adds(steps)
    decreases |steps|
  {
    if steps != [] { StaysUnstarted(Next(s, steps[0]), steps[1..]); }
  }

  // ---------------------------------------------------------------------------------------
  // The class, with the pool's threads running in between
  // ---------------------------------------------------------------------------------------

  /** A thread that is neither asleep nor gone can take a step. */
  predicate CanStep(w: Worker) {
    !w.Asleep? && !w.Exited?
  }

  /** Tasks finished after `had` have left their codes in `res`. */
  predicate Recorded<V(==)>(s: Pool, had: seq<nat>, base: nat, plugins: seq<Outcome<V>>, places: seq<V>, res: seq<V>) {
    && Inv(s) && had <= s.done && |places| == |plugins|
    && res == PerformAll(places, base, plugins, s.done[|had|..])
  }

  /** What a step of thread i makes of the pool. */
  function StepOf(s: Pool, i: nat): Step
    requires i < |s.workers|
  {
    match s.workers[i]
    case Testing => Test(i)
    case Running(_) => Finish(i)
    case _ => Fetch(i)
  }

  lemma ThreadStep(s: Pool, i: nat)
    requires Inv(s) && i < |s.workers| && CanStep(s.workers[i])
    ensures Enabled(s, StepOf(s, i)) && Inv(Next(s, StepOf(s, i))) && Rank(Next(s, StepOf(s, i))) < Rank(s)
    ensures ChangesLittle(s, i, Next(s, StepOf(s, i)))
  {
    StepIsQuiet(s, i);
    hide *;
    NextInv(s, StepOf(s, i));
    QuietStepsLowerTheRank(s, StepOf(s, i));
  }

  /** What a step of thread i leaves alone. */
  predicate ChangesLittle(s: Pool, i: nat, t: Pool)
    requires i < |s.workers|
  {
    && t.running == s.running && t.added == s.added
    && (t.caller == s.caller || (s.caller.Waiting? && t.caller.Rechecking?))
    && (s.queue == [] || !s.running ==> t.queue == s.queue)
    && t.done == s.done + if s.workers[i].Running? then [s.workers[i].task] else []
  }

  lemma StepIsQuiet(s: Pool, i: nat)
    requires i < |s.workers| && CanStep(s.workers[i])
    ensures Enabled(s, StepOf(s, i)) && Quiet(StepOf(s, i)) && ChangesLittle(s, i, Next(s, StepOf(s, i)))
  {
    assert s.done + [] == s.done;
  }

  lemma LittleIs(s: Pool, i: nat, t: Pool)
    requires i < |s.workers| && ChangesLittle(s, i, t)
    ensures t.running == s.running && t.added == s.added && (s.queue == [] || !s.running ==> t.queue == s.queue)
    ensures t.caller == s.caller || (s.caller.Waiting? && t.caller.Rechecking?)
    ensures t.done == s.done + if s.workers[i].Running? then [s.workers[i].task] else []
  {
  }

  lemma {:induction false} PerformAllSnoc<V>(res: seq<V>, base: nat, plugins: seq<Outcome<V>>, tasks: seq<nat>,
                                             task: nat)
    requires |res| == |plugins|
    ensures PerformAll(res, base, plugins, tasks + [task])
         == Perform(PerformAll(res, base, plugins, tasks), base, plugins, task)
    decreases |tasks|
  {
    hide Perform;
    if tasks == [] {
      var none: seq<nat> := [];
      assert ([] + [task])[1..] == none;
    } else {
      assert (tasks + [task])[1..] == tasks[1..] + [task];
      PerformAllSnoc(Perform(res, base, plugins, tasks[0]), base, plugins, tasks[1..], task);
    }
  }

  lemma RecordedStep<V>(s: Pool, i: nat, had: seq<nat>, base: nat, plugins: seq<Outcome<V>>, places: seq<V>,
                        res: seq<V>)
    requires Recorded(s, had, base, plugins, places, res) && i < |s.workers| && CanStep(s.workers[i])
    ensures Enabled(s, StepOf(s, i)) && |res| == |plugins|
    ensures Recorded(Next(s, StepOf(s, i)), had, base, plugins, places,
                     if s.workers[i].Running? then Perform(res, base, plugins, s.workers[i].task) else res)
  {
    ThreadStep(s, i);
    LittleIs(s, i, Next(s, StepOf(s, i)));
    hide Inv, Rank, Next, Enabled, Perform, ChangesLittle;
    if s.workers[i].Running? {
      var task := s.workers[i].task;
      assert (s.done + [task])[|had|..] == s.done[|had|..] + [task];
      PerformAllSnoc(places, base, plugins, s.done[|had|..], task);
    } else {
      assert s.done + [] == s.done;
    }
  }

  /** While something is queued in a running pool, or Stop waits for threads, some thread can step. */
  lemma SomeoneCanStep(s: Pool) returns (i: nat)
    requires Inv(s) && ((s.running && s.queue != []) || (s.caller.Joining? && !AllExited(s)))
    ensures i < |s.workers| && CanStep(s.workers[i])
  {
    if s.running {
      if SomeAsleep(s) {
        i := SomeoneLooks(s.workers);
      } else {
        i := 0;
        assert !s.workers[0].Asleep?;
      }
    } else {
      i :| 0 <= i < |s.workers| && !s.workers[i].Exited?;
      assert !s.workers[i].Asleep?;
    }
  }

  class PluginManager<V(==)> {
    const pool: ThreadPool
    var plugins: seq<Outcome<V>>

    constructor (pool: ThreadPool)
      ensures this.pool == pool && plugins == []
    {
      this.pool, plugins := pool, [];
    }

    /** A null plugin is not added. */
    method AddPlugin(plugin: Option<Outcome<V>>)
      modifies this
      ensures plugins == old(plugins) + if plugin.None? then [] else [plugin.value]
    {
      if plugin.None? {
        return;
      }
      plugins := plugins + [plugin.value];
    }

    /** Thread i takes its next step; when a plugin's Run ends, its code is stored. */
    method Step(i: nat, res: seq<V>, base: nat, ghost had: seq<nat>, ghost places: seq<V>) returns (r: seq<V>)
      requires Recorded(pool.State(), had, base, plugins, places, res)
      requires i < |pool.threads| && CanStep(pool.threads[i])
      modifies pool
      ensures Recorded(pool.State(), had, base, plugins, places, r)
      ensures Enabled(old(pool.State()), StepOf(old(pool.State()), i))
      ensures pool.State() == Next(old(pool.State()), StepOf(old(pool.State()), i))
    {
      RecordedStep(pool.State(), i, had, base, plugins, places, res);
      hide Recorded, Perform, Next;
      r := res;
      if pool.threads[i].Testing? {
        pool.LoopTest(i);
      } else if pool.threads[i].Running? {
        r := Perform(res, base, plugins, pool.threads[i].task);
        pool.FinishTask(i);
      } else {
        var got := pool.FetchTest(i);
      }
    }

    /** A thread or the waiting caller, if one sleeps, wakes without having been notified. */
    method Spurious(res: seq<V>, base: nat, ghost had: seq<nat>, ghost places: seq<V>)
      requires Recorded(pool.State(), had, base, plugins, places, res)
      modifies pool
      ensures Recorded(pool.State(), had, base, plugins, places, res)
      ensures pool.running == old(pool.running) && pool.added == old(pool.added)
      ensures pool.taskQueue == old(pool.taskQueue)
      ensures pool.caller == old(pool.caller) || (old(pool.caller).Waiting? && pool.caller.Rechecking?)
    {
      hide *;
      StateIs(pool);
      var i: nat := *;
      if 0 <= i < |pool.threads| && pool.threads[i].Asleep? {
        SpuriousIs(pool.State(), SpuriousWorker(i), had, base, plugins, places, res);
        pool.WakeWorker(i);
      } else if pool.caller.Waiting? {
        SpuriousIs(pool.State(), SpuriousCaller, had, base, plugins, places, res);
        pool.WakeCaller();
      }
      StateIs(pool);
    }

    /** Any number of steps of any threads, spurious wakeups included. */
    method Others(res: seq<V>, base: nat, ghost had: seq<nat>, ghost places: seq<V>) returns (r: seq<V>)
      requires Recorded(pool.State(), had, base, plugins, places, res) && pool.caller.Free?
      modifies pool
      ensures Recorded(pool.State(), had, base, plugins, places, r)
      ensures pool.caller.Free? && pool.running == old(pool.running) && pool.added == old(pool.added)
      ensures old(pool.taskQueue) == [] || !pool.running ==> pool.taskQueue == old(pool.taskQueue)
    {
      hide *;
      r := res;
      var turns: nat := *;
      while turns > 0
        invariant Recorded(pool.State(), had, base, plugins, places, r)
        invariant pool.caller.Free? && pool.running == old(pool.running) && pool.added == old(pool.added)
        invariant old(pool.taskQueue) == [] || !pool.running ==> pool.taskQueue == old(pool.taskQueue)
      {
        var i: nat := *;
        if 0 <= i < |pool.threads| && !pool.threads[i].Asleep? && !pool.threads[i].Exited? {
          CanStepIs(pool.threads[i]);
          StateIs(pool);
          RecordedIsInv(pool.State(), had, base, plugins, places, r);
          ThreadStep(pool.State(), i);
          LittleIs(pool.State(), i, Next(pool.State(), StepOf(pool.State(), i)));
          r := Step(i, r, base, had, places);
          StateIs(pool);
        } else {
          Spurious(r, base, had, places);
        }
        turns := turns - 1;
      }
    }

    /** Queues the run of every plugin and waits for the pool to end. Between any two steps of the caller other
        threads take any steps they can. Without threads, because there are to be none or memory for them cannot be
        reserved, there is no return as soon as something is queued; the method says so. */
    method RunAllPlugins(res: seq<V>, default: V, reserved: bool) returns (r: seq<V>, stuck: bool)
      requires Inv(pool.State()) && pool.caller.Free?
      modifies pool
      ensures Inv(pool.State()) && !pool.running && pool.threads == []
      ensures var up := old(pool.running) || (pool.threadsNum > 0 && reserved);
              stuck == (!up && (plugins != [] || old(pool.taskQueue) != []))
      ensures if stuck then pool.caller.Waiting? && pool.taskQueue != []
              else pool.caller.Free? && pool.taskQueue == []
      ensures var places := Resize(res, |plugins|, default);
              && |r| == |plugins|
              && (stuck || forall i | 0 <= i < |plugins| ::
                    r[i] == if plugins[i].Returned? then plugins[i].code else places[i])
    {
      hide *;
      StateIs(pool);
      var base := pool.added;
      ghost var had, before, places := pool.done, pool.State(), Resize(res, |plugins|, default);
      StartIs(before);
      var ok := pool.Start(reserved);
      StateIs(pool);
      r := Resize(res, |plugins|, default);
      NothingRecorded(pool.State(), had, base, plugins, places);
      r := Others(r, base, had, places);
      var index := 0;
      while index < |plugins|
        invariant 0 <= index <= |plugins| && pool.added == base + index && pool.caller.Free?
        invariant pool.running == (old(pool.running) || (pool.threadsNum > 0 && reserved))
        invariant !pool.running ==> |pool.taskQueue| == |old(pool.taskQueue)| + index
        invariant Recorded(pool.State(), had, base, plugins, places, r)
      {
        StateIs(pool);
        ghost var s := pool.State();
        pool.AddTask();
        ghost var w :| Enabled(s, Add(w)) && pool.State() == Next(s, Add(w));
        AddIs(s, w, had, base, plugins, places, r);
        StateIs(pool);
        r := Others(r, base, had, places);
        index := index + 1;
      }
      r, stuck := WaitForStop(r, base, had, places);
      StateIs(pool);
      RecordedIsInv(pool.State(), had, base, plugins, places, r);
      if !stuck { AllRecorded(before, pool.State(), had, base, plugins, places, r); }
    }

    /** WaitAllTasks, then Stop, other threads running in between. On a pool that is not running Stop does nothing, and
        WaitAllTasks never returns if something is queued (see WaitingOnAStoppedPoolIsForever); the method says so. */
    method WaitForStop(res: seq<V>, base: nat, ghost had: seq<nat>, ghost places: seq<V>)
      returns (r: seq<V>, stuck: bool)
      requires Recorded(pool.State(), had, base, plugins, places, res) && pool.caller.Free?
      modifies pool
      ensures Recorded(pool.State(), had, base, plugins, places, r)
      ensures stuck == (!old(pool.running) && old(pool.taskQueue) != [])
      ensures !pool.running && pool.threads == [] && pool.added == old(pool.added)
      ensures if stuck then pool.caller.Waiting? && pool.taskQueue == old(pool.taskQueue)
              else pool.caller.Free? && pool.taskQueue == [] && multiset(pool.done) == Tasks(pool.added)
    {
      hide *;
      r, stuck := Waiting(res, base, had, places);
      if stuck {
        StateIs(pool);
        RecordedIsInv(pool.State(), had, base, plugins, places, r);
        NoWorkers(pool.State());
        return;
      }
      r := Others(r, base, had, places);
      StateIs(pool);
      StopIs(pool.State(), had, base, plugins, places, r);
      var ok := pool.StopFetching();
      StateIs(pool);
      if ok {
        r := Joining(r, base, had, places);
      }
    }

    /** WaitAllTasks, with any number of spurious wakeups. */
    method Waiting(res: seq<V>, base: nat, ghost had: seq<nat>, ghost places: seq<V>) returns (r: seq<V>, stuck: bool)
      requires Recorded(pool.State(), had, base, plugins, places, res) && pool.caller.Free?
      modifies pool
      ensures Recorded(pool.State(), had, base, plugins, places, r)
      ensures stuck == (!old(pool.running) && old(pool.taskQueue) != [])
      ensures pool.running == old(pool.running) && pool.added == old(pool.added)
      ensures if stuck then pool.caller.Waiting? && pool.taskQueue == old(pool.taskQueue)
              else pool.caller.Free? && pool.taskQueue == []
    {
      hide *;
      r := res;
      var spurious: nat := *;
      StateIs(pool);
      WaitIs(pool.State(), Wait, had, base, plugins, places, r);
      var blocked := pool.WaitTest();
      StateIs(pool);
      stuck := blocked && !pool.running;
      if stuck {
        return;
      }
      while blocked
        invariant Recorded(pool.State(), had, base, plugins, places, r)
        invariant pool.running == old(pool.running) && pool.added == old(pool.added)
        invariant blocked ==> pool.running && (pool.caller.Waiting? || pool.caller.Rechecking?)
        invariant !blocked ==> pool.caller.Free? && pool.taskQueue == []
        decreases spurious, if blocked then Rank(pool.State()) + 1 else 0
      {
        StateIs(pool);
        RecordedIsInv(pool.State(), had, base, plugins, places, r);
        var wakes: bool := *;
        var turn: nat := *;
        if spurious > 0 && wakes {
          Spurious(r, base, had, places);
          spurious := spurious - 1;
        } else if pool.caller.Rechecking?
                  && !(0 <= turn < |pool.threads| && !pool.threads[turn].Asleep? && !pool.threads[turn].Exited?) {
          WaitIs(pool.State(), Recheck, had, base, plugins, places, r);
          blocked := pool.WaitTest();
          StateIs(pool);
        } else {
          if pool.caller.Waiting? {
            WaitingNeedsQueue(pool.State());
            turn := SomeThread();
          }
          CanStepIs(pool.threads[turn]);
          ThreadStep(pool.State(), turn);
          LittleIs(pool.State(), turn, Next(pool.State(), StepOf(pool.State(), turn)));
          r := Step(turn, r, base, had, places);
          StateIs(pool);
        }
      }
    }

    method Joining(res: seq<V>, base: nat, ghost had: seq<nat>, ghost places: seq<V>) returns (r: seq<V>)
      requires Recorded(pool.State(), had, base, plugins, places, res)
      requires pool.caller.Joining? && !pool.running && pool.taskQueue == []
      modifies pool
      ensures Recorded(pool.State(), had, base, plugins, places, r)
      ensures !pool.running && pool.threads == [] && pool.taskQueue == [] && pool.caller.Free?
      ensures pool.added == old(pool.added) && multiset(pool.done) == Tasks(pool.added)
    {
      hide *;
      r := res;
      StateIs(pool);
      while exists i | 0 <= i < |pool.threads| :: !pool.threads[i].Exited?
        invariant Recorded(pool.State(), had, base, plugins, places, r)
        invariant pool.caller.Joining? && !pool.running && pool.taskQueue == [] && pool.added == old(pool.added)
        decreases Rank(pool.State())
      {
        StateIs(pool);
        RecordedIsInv(pool.State(), had, base, plugins, places, r);
        AllExitedIs(pool.State());
        var i := SomeThread();
        ThreadStep(pool.State(), i);
        LittleIs(pool.State(), i, Next(pool.State(), StepOf(pool.State(), i)));
        r := Step(i, r, base, had, places);
        StateIs(pool);
      }
      StateIs(pool);
      JoinIs(pool.State(), had, base, plugins, places, r);
      pool.JoinThreads();
      StateIs(pool);
    }

    /** The system runs some thread that can go on. */
    method SomeThread() returns (i: nat)
      requires Inv(pool.State())
      requires (pool.running && pool.taskQueue != []) || (pool.caller.Joining? && !AllExited(pool.State()))
      ensures i < |pool.threads| && CanStep(pool.threads[i])
    {
      hide Inv;
      ghost var k := SomeoneCanStep(pool.State());
      i :| 0 <= i < |pool.threads| && !pool.threads[i].Asleep? && !pool.threads[i].Exited?;
    }
  }

  lemma AllExitedIs(s: Pool)
    ensures AllExited(s) <==> !exists i | 0 <= i < |s.workers| :: !s.workers[i].Exited?
  {
  }

  lemma StartIs(s: Pool)
    requires Inv(s) && s.caller.Free?
    ensures Enabled(s, Start) && Inv(Next(s, Start)) && (s.running ==> s.threadsNum > 0)
    ensures var t := Next(s, Start);
            && (t.running <==> s.threadsNum > 0) && t.caller.Free? && t.threadsNum == s.threadsNum
            && t.queue == s.queue && t.added == s.added && t.done == s.done
  {
    NextInv(s, Start);
    hide Inv;
  }

  lemma NothingRecorded<V>(s: Pool, had: seq<nat>, base: nat, plugins: seq<Outcome<V>>, places: seq<V>)
    requires Inv(s) && had == s.done && |places| == |plugins|
    ensures Recorded(s, had, base, plugins, places, places)
  {
    hide Inv;
    assert s.done[|had|..] == [];
  }

  /** Steps that finish nothing keep the record. */
  lemma RecordedKept<V>(s: Pool, t: Pool, had: seq<nat>, base: nat, plugins: seq<Outcome<V>>, places: seq<V>,
                        res: seq<V>)
    requires Recorded(s, had, base, plugins, places, res) && Inv(t) && t.done == s.done
    ensures Recorded(t, had, base, plugins, places, res)
  {
    hide Inv;
  }

  lemma AddIs<V>(s: Pool, w: nat, had: seq<nat>, base: nat, plugins: seq<Outcome<V>>, places: seq<V>, res: seq<V>)
    requires Recorded(s, had, base, plugins, places, res) && Enabled(s, Add(w))
    ensures var t := Next(s, Add(w));
            && Recorded(t, had, base, plugins, places, res)
            && t.added == s.added + 1 && t.running == s.running && t.caller == s.caller
            && |t.queue| == |s.queue| + 1 && t.threadsNum == s.threadsNum
  {
    NextInv(s, Add(w));
    RecordedKept(s, Next(s, Add(w)), had, base, plugins, places, res);
    hide Inv, Recorded;
  }

  lemma WaitIs<V>(s: Pool, wait: Step, had: seq<nat>, base: nat, plugins: seq<Outcome<V>>, places: seq<V>, res: seq<V>)
    requires Recorded(s, had, base, plugins, places, res)
    requires (wait.Wait? && s.caller.Free?) || (wait.Recheck? && s.caller.Rechecking?)
    ensures Enabled(s, wait)
    ensures var t := Next(s, wait);
            && Recorded(t, had, base, plugins, places, res)
            && t.added == s.added && t.running == s.running && t.queue == s.queue
            && (if s.queue == [] then t.caller.Free? else t.caller.Waiting?)
            && (wait.Recheck? ==> Rank(t) < Rank(s))
            && (WaitReturns(s, wait) ==> s.queue == [])
  {
    NextInv(s, wait);
    RecordedKept(s, Next(s, wait), had, base, plugins, places, res);
    if wait.Recheck? { QuietStepsLowerTheRank(s, wait); }
    hide Inv, Recorded, Rank;
  }

  lemma WaitingNeedsQueue(s: Pool)
    requires Inv(s) && s.caller.Waiting?
    ensures s.queue != []
  {
  }

  lemma StopIs<V>(s: Pool, had: seq<nat>, base: nat, plugins: seq<Outcome<V>>, places: seq<V>, res: seq<V>)
    requires Recorded(s, had, base, plugins, places, res) && s.caller.Free? && s.queue == []
    ensures Enabled(s, Stop)
    ensures var t := Next(s, Stop);
            && Recorded(t, had, base, plugins, places, res)
            && t.added == s.added && !t.running && t.queue == []
            && (if s.running then t.caller.Joining?
                else t.caller.Free? && t.workers == [] && multiset(t.done) == Tasks(t.added))
  {
    RecordedIsInv(s, had, base, plugins, places, res);
    NextInv(s, Stop);
    RecordedKept(s, Next(s, Stop), had, base, plugins, places, res);
    if !s.running { StoppedIsDone(s); }
    hide Inv, Recorded;
  }

  lemma NoWorkers(s: Pool)
    requires Inv(s) && !s.running && !s.caller.Joining?
    ensures s.workers == []
  {
  }

  lemma StoppedIsDone(s: Pool)
    requires Inv(s) && !s.running && s.caller.Free? && s.queue == []
    ensures s.workers == [] && multiset(s.done) == Tasks(s.added)
  {
    assert multiset{} + multiset(s.done) == multiset(s.done);
  }

  lemma SpuriousIs<V>(s: Pool, step: ThreadPools.Step, had: seq<nat>, base: nat, plugins: seq<Outcome<V>>,
                      places: seq<V>, res: seq<V>)
    requires Recorded(s, had, base, plugins, places, res)
    requires match step
             case SpuriousWorker(i) => i < |s.workers| && s.workers[i].Asleep?
             case SpuriousCaller => s.caller.Waiting?
             case _ => false
    ensures Enabled(s, step)
    ensures var t := Next(s, step);
            && Recorded(t, had, base, plugins, places, res)
            && t.added == s.added && t.running == s.running && t.queue == s.queue
            && (t.caller == s.caller || (s.caller.Waiting? && t.caller.Rechecking?))
  {
    RecordedIsInv(s, had, base, plugins, places, res);
    NextInv(s, step);
    RecordedKept(s, Next(s, step), had, base, plugins, places, res);
    hide Inv, Recorded;
  }

  lemma JoinIs<V>(s: Pool, had: seq<nat>, base: nat, plugins: seq<Outcome<V>>, places: seq<V>, res: seq<V>)
    requires Recorded(s, had, base, plugins, places, res) && s.caller.Joining? && s.queue == [] && !s.running
    requires !exists i | 0 <= i < |s.workers| :: !s.workers[i].Exited?
    ensures Enabled(s, Joined)
    ensures var t := Next(s, Joined);
            && Recorded(t, had, base, plugins, places, res)
            && t.added == s.added && !t.running && t.queue == [] && t.caller.Free? && t.workers == []
            && multiset(t.done) == Tasks(t.added)
  {
    hide *;
    RecordedIsInv(s, had, base, plugins, places, res);
    JoinEnds(s);
    NextInv(s, Joined);
    RecordedKept(s, Next(s, Joined), had, base, plugins, places, res);
    StopExecutesWhatWasFetched(s);
  }

  lemma JoinEnds(s: Pool)
    requires s.caller.Joining? && !exists i | 0 <= i < |s.workers| :: !s.workers[i].Exited?
    ensures Enabled(s, Joined)
    ensures Next(s, Joined) == s.(workers := [], caller := Free)
    ensures s.queue == [] ==> Fetched(s) == s.added
  {
  }

  /** All tasks added since `before` are among the recorded ones, so every code is in its place. */
  lemma AllRecorded<V>(before: Pool, s: Pool, had: seq<nat>, base: nat, plugins: seq<Outcome<V>>, places: seq<V>,
                       res: seq<V>)
    requires Recorded(s, had, base, plugins, places, res) && multiset(s.done) == Tasks(s.added)
    requires Inv(before) && before.added == base && s.added == base + |plugins|
    requires had == before.done
    ensures |res| == |plugins|
    ensures forall i | 0 <= i < |plugins| :: res[i] == if plugins[i].Returned? then plugins[i].code else places[i]
  {
    hide Inv;
    forall i: nat | i < |plugins| ensures OwnTaskDone(base, s.done[|had|..], i) {
      TasksCount(s.added, base + i);
      assert multiset(s.done)[base + i] == 1;
      NotYetDone(before, base + i);
      assert s.done == before.done + s.done[|had|..];
    }
    PerformedAll(places, base, plugins, s.done[|had|..]);
  }

  lemma CanStepIs(w: Worker)
    ensures CanStep(w) <==> !w.Asleep? && !w.Exited?
  {
  }

  lemma StateIs(pool: ThreadPool)
    ensures pool.State() == Pool(pool.threadsNum, pool.running, pool.taskQueue, pool.threads, pool.caller, pool.added,
                                 pool.done)
  {
  }

  lemma RecordedIsInv<V>(s: Pool, had: seq<nat>, base: nat, plugins: seq<Outcome<V>>, places: seq<V>, res: seq<V>)
    requires Recorded(s, had, base, plugins, places, res)
    ensures Inv(s) && had <= s.done && |res| == |places| == |plugins|
    ensures res == PerformAll(places, base, plugins, s.done[|had|..])
  {
    hide Inv;
  }
}
