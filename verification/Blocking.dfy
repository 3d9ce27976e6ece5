/** The scheduler and the parking protocol together: what parks a thread keeps it off the processor, and
    when it does not (smp/kthread_switch.c, smp/mutex.c, smp/condiction.c). */
module Blocking {
  import opened Waiting
  import P = SchedulerSpec
  import Y = Sync
  import R = SyncRuns

  /** One kernel: the scheduler's threads have the wait records that the protocol writes. */
  datatype Joint = Joint(p: P.State, s: Y.State)

  ghost predicate Agree(p: P.State, s: Y.State) {
    forall t <- p.threads :: t in s.wait && p.threads[t].wait == s.wait[t]
  }

  /** Both invariants hold, and thread numbers beyond the last one are unused. */
  ghost predicate Together(j: Joint) {
    P.Inv(j.p) && Y.Inv(j.s) && Agree(j.p, j.s) && forall t <- j.s.wait :: 0 < t <= j.p.lastId
  }

  /** The scheduler after the protocol wrote wait records. */
  function Rewritten(p: P.State, s: Y.State): P.State {
    p.(threads := map t | t in p.threads :: if t in s.wait then p.threads[t].(wait := s.wait[t]) else p.threads[t])
  }

  // ----- steps of both -----

  datatype Step = Schedule | Tick | Begin(nice: nat) | Sleep(ticks: nat) | Finish | Do(op: R.Op)

  /** The thread that calls an operation; 0 when any may. */
  function Caller(op: R.Op): nat {
    match op
    case Lock(t, _) => t
    case Return(t) => t
    case TryLock(t, _) => t
    case Unlock(t, _) => t
    case WaitOn(t, _) => t
    case _ => 0
  }

  ghost predicate CanDo(j: Joint, op: R.Op) {
    !op.NewThread? && R.Enabled(j.s, op) && (Caller(op) != 0 ==> Caller(op) == j.p.current)
  }

  ghost predicate Next(j: Joint, step: Step, j': Joint) {
    match step
    case Schedule => P.SwitchStep(j.p, j'.p) && j'.s == j.s
    case Tick => P.TickStep(j.p, j'.p) && j'.s == j.s
    case Begin(nice) =>
      var op := R.NewThread(j.p.lastId + 1);
      j.p.now + nice !in j.p.queue && j'.p == P.Started(j.p, nice) && R.Enabled(j.s, op) && j'.s == R.Apply(j.s, op)
    case Sleep(ticks) => j.p.current != 0 && j'.p == P.Slept(j.p, ticks) && j'.s == j.s
    case Finish => P.CleanupStep(j.p, j'.p) && j'.s == j.s
    case Do(op) => CanDo(j, op) && j'.s == R.Apply(j.s, op) && j'.p == Rewritten(j.p, j'.s)
  }

  ghost predicate Run(run: seq<Joint>, steps: seq<Step>) {
    |run| == |steps| + 1 && forall i | 0 <= i < |steps| :: Next(run[i], steps[i], run[i + 1])
  }

  /** Timeout 0: a thread is parked exactly when the scheduler holds it to be waiting, at any tick. */
  lemma ParkedIsWaiting(s: Y.State, t: nat, now: nat)
    requires Y.Inv(s) && t in s.wait
    ensures Y.Parked(s, t) <==> IsWaiting(s.wait[t], now)
  {
  }

  lemma WaitKeys(s: Y.State, op: R.Op)
    requires Y.Inv(s) && R.Enabled(s, op) && !op.NewThread?
    ensures R.Apply(s, op).wait.Keys == s.wait.Keys
  {
    hide Y.LockingOk, Y.MutexOk, Y.Exclusive;
    match op
    case Unlock(t, m) =>
      if s.mutexes[m].waiting != [] { Y.ListsOk(s, m); assert s.mutexes[m].waiting[|s.mutexes[m].waiting| - 1] in s.mutexes[m].waiting; }
    case _ =>
  }

  /** Every operation of the protocol is a step of the scheduler's model: it keeps both invariants, and
      afterwards the scheduler passes over exactly the threads that the protocol has parked. */
  lemma OpIsStep(j: Joint, op: R.Op, j': Joint)
    requires Together(j) && Next(j, Do(op), j')
    ensures P.WaitStep(j.p, j'.p) && Together(j')
    ensures forall t <- j'.p.threads :: IsWaiting(j'.p.threads[t].wait, j'.p.now) <==> Y.Parked(j'.s, t)
  {
    hide Y.Inv, P.Inv, R.Apply;
    WaitKeys(j.s, op);
    R.OpKeeps(j.s, op);
    assert P.WaitStep(j.p, j'.p);
    P.OtherKeepsInv(j.p, j'.p);
    forall t | t in j'.p.threads
      ensures IsWaiting(j'.p.threads[t].wait, j'.p.now) <==> Y.Parked(j'.s, t)
    {
      ParkedIsWaiting(j'.s, t, j'.p.now);
    }
  }

  lemma BeginKeeps(j: Joint, nice: nat, j': Joint)
    requires Together(j) && Next(j, Begin(nice), j')
    ensures Together(j')
  {
    hide Y.Inv, P.Inv;
    P.StartKeepsInv(j.p, nice);
    R.OpKeeps(j.s, R.NewThread(j.p.lastId + 1));
  }

  /** A step of the scheduler writes no wait record. */
  lemma ScheduleKeeps(j: Joint, step: Step, j': Joint)
    requires Together(j) && Next(j, step, j') && !step.Do? && !step.Begin?
    ensures Together(j')
  {
    hide Y.Inv, P.Inv;
    if step.Schedule? {
      P.SwitchKeepsInv(j.p, j'.p);
      SwitchWaits(j.p, j'.p);
    } else {
      if step.Sleep? { assert j'.p == P.Slept(j.p, step.ticks); }
      P.OtherKeepsInv(j.p, j'.p);
    }
  }

  lemma SwitchWaits(p: P.State, p': P.State)
    requires P.SwitchStep(p, p')
    ensures p'.lastId == p.lastId && p'.threads.Keys == p.threads.Keys
    ensures forall t <- p.threads :: p'.threads[t].wait == p.threads[t].wait
  {
    hide P.LeastRunnable, P.FirstFree, P.NoneRunnable;
  }

  lemma StepKeeps(j: Joint, step: Step, j': Joint)
    requires Together(j) && Next(j, step, j')
    ensures Together(j')
  {
    hide Together, Next;
    match step
    case Do(op) => OpIsStep(j, op, j');
    case Begin(nice) => BeginKeeps(j, nice, j');
    case _ => ScheduleKeeps(j, step, j');
  }

  /** The kernel after smp_thread_Init: one thread, and no mutexes or conditions. */
  function Boot(nice: nat): Joint { Joint(P.Initial(nice), R.Start({1})) }

  /** In every state of every run of threads, the scheduler, mutexes and conditions both invariants hold,
      and they agree about who is waiting. */
  lemma {:induction false} RunTogether(run: seq<Joint>, steps: seq<Step>, nice: nat, i: nat)
    requires Run(run, steps) && run[0] == Boot(nice) && i < |run|
    ensures Together(run[i])
  {
    hide Together, Next;
    if i == 0 {
      BootTogether(nice);
    } else {
      RunTogether(run, steps, nice, i - 1);
      StepKeeps(run[i - 1], steps[i - 1], run[i - 1 + 1]);
    }
  }

  lemma BootTogether(nice: nat)
    ensures Together(Boot(nice))
  {
    R.StartOk({1});
  }

  // ----- what parking keeps off the processor -----

  /** __smp_Switch never loads a parked thread. The one way back into a parked thread is the early
      return, which does not look at the current thread's wait record: a switch from a parked thread
      stays with it exactly when another runnable thread waits behind its key. */
  lemma ParkedStaysIff(p: P.State, p': P.State, s: Y.State)
    requires P.Inv(p) && Y.Inv(s) && Agree(p, s) && P.SwitchStep(p, p') && p.current != 0 && Y.Parked(s, p.current)
    ensures p'.current == p.current <==> exists k :: P.Stays(p, k)
    ensures p'.current != p.current ==> p'.current == 0 || !Y.Parked(s, p'.current)
  {
    hide Y.Inv, P.Inv;
    if exists k :: P.Stays(p, k) {
      var j: nat :| P.Stays(p, j);
      StaysOnly(p, p', j);
    } else if exists key, k :: P.SwitchTo(p, p', key, k) {
      var key, k :| P.SwitchTo(p, p', key, k);
      P.LoadsLeast(p, p', key, k);
      LoadedIsFree(p, p', key, k, s);
    }
  }

  lemma StaysOnly(p: P.State, p': P.State, j: nat)
    requires P.SwitchStep(p, p') && P.Stays(p, j)
    ensures p' == p
  {
    assert P.RunnableAt(p, j);
  }

  lemma LoadedIsFree(p: P.State, p': P.State, key: nat, k: nat, s: Y.State)
    requires P.Inv(p) && Y.Inv(s) && Agree(p, s) && P.SwitchTo(p, p', key, k)
    ensures p'.current != p.current && !Y.Parked(s, p'.current)
  {
    assert P.RunnableAt(p, k);
    ParkedIsWaiting(s, p.queue[k], p.now);
  }

  /** The current thread is parked, and the switch it asks for will give the processor back to it. */
  ghost predicate EarlyReturn(j: Joint) { j.p.current != 0 && Y.Parked(j.s, j.p.current) && exists k :: P.Stays(j.p, k) }

  /** Yield comes back to a parked thread only after its wait was cleared, as mutexes and conditions
      rely on, exactly where there is no early return. */
  lemma YieldSafeIff(j: Joint)
    requires Together(j) && j.p.current != 0
    ensures (forall j' | Next(j, Schedule, j') && j'.p.current == j.p.current :: !Y.Parked(j'.s, j'.p.current)) <==> !EarlyReturn(j)
  {
    if EarlyReturn(j) {
      assert Next(j, Schedule, j);
    } else {
      forall j' | Next(j, Schedule, j') && j'.p.current == j.p.current
        ensures !Y.Parked(j'.s, j'.p.current)
      {
        if Y.Parked(j.s, j.p.current) { ParkedStaysIff(j.p, j'.p, j.s); }
      }
    }
  }

  /** smp_Mutex_Lock comes back early exactly then: with data 0, while the mutex is still held. */
  lemma LockComesBackEarly(j: Joint)
    requires Together(j) && EarlyReturn(j) && j.p.current in j.s.locking
    ensures j.s.wait[j.p.current].data == 0 && exists u :: (u, j.s.locking[j.p.current]) in j.s.held
  {
    var t := j.p.current;
    var m := j.s.locking[t];
    assert Y.LockingOk(j.s, t) && Y.MutexOk(j.s, m);
    assert Y.ListOk(j.s, m);
    assert t in Y.List(j.s, m);
    var h :| h in j.s.held && h.1 == m;
    assert (h.0, m) in j.s.held;
  }

  // ----- a run with an early return -----

  /** Thread 1 starts thread 2, which gets the processor, locks the mutex and gives the processor back;
      then thread 1 asks for the mutex. */
  function EarlySteps(): seq<Step> {
    [Do(R.NewMutex(3)), Begin(1), Tick, Schedule, Do(R.Lock(2, 3)), Schedule, Do(R.Lock(1, 3))]
  }

  function Fresh(nice: nat, tick: nat): P.Thread { P.Thread(nice, tick, 0, Wait(0, 0, 0)) }

  function EarlyStates(): seq<Joint> {
    var s0 := R.Start({1});
    var s1 := s0.(mutexes := map[3 := Y.Mutex(false, [])]);
    var s2 := s1.(wait := s1.wait[2 := Wait(0, 0, 0)]);
    var s3 := s2.(mutexes := map[3 := Y.Mutex(true, [])], held := {(2, 3)});
    var s4 := s3.(mutexes := map[3 := Y.Mutex(true, [1])], wait := s3.wait[1 := Wait(3, 0, 0)], locking := map[1 := 3]);
    var p0 := P.Initial(0);
    var p1 := P.State(1, 1, map[2 := 2], map[1 := Fresh(0, 1), 2 := Fresh(1, 1)], 2);
    var p2 := p1.(now := 2);
    var p3 := P.State(2, 2, map[3 := 1], map[1 := Fresh(0, 2), 2 := Fresh(1, 1)], 2);
    var p4 := P.State(2, 1, map[4 := 2], map[1 := Fresh(0, 2), 2 := Fresh(1, 2)], 2);
    var p5 := p4.(threads := p4.threads[1 := Fresh(0, 2).(wait := Wait(3, 0, 0))]);
    [Joint(p0, s0), Joint(p0, s1), Joint(p1, s2), Joint(p2, s2), Joint(p3, s2), Joint(p3, s3), Joint(p4, s3), Joint(p5, s4)]
  }

  /** The input on which Lock fails: thread 1 is back from Yield, still parked, with data 0, while
      thread 2 holds the mutex. */
  lemma EarlyReturnHappens()
    ensures Run(EarlyStates(), EarlySteps()) && EarlyStates()[0] == Boot(0)
    ensures var j := EarlyStates()[7];
            && EarlyReturn(j) && Next(j, Schedule, j) && j.p.current == 1 && j.s.locking[1] == 3
            && j.s.wait[1] == Wait(3, 0, 0) && j.s.held == {(2, 3)}
  {
    hide Next;
    var run, steps := EarlyStates(), EarlySteps();
    FirstSteps();
    ToThreadTwo();
    TwoLocks();
    BackToThreadOne();
    Asks();
    forall i | 0 <= i < |steps|
      ensures Next(run[i], steps[i], run[i + 1])
    {
    }
    Comes();
  }

  lemma FirstSteps()
    ensures var run, steps := EarlyStates(), EarlySteps();
            Next(run[0], steps[0], run[1]) && Next(run[1], steps[1], run[2]) && Next(run[2], steps[2], run[3])
  {
    var run := EarlyStates();
    assert Rewritten(run[0].p, run[1].s).threads == run[0].p.threads;
    assert run[1].s.mutexes == run[0].s.mutexes[3 := Y.Mutex(false, [])];
    assert run[2].p == P.Started(run[1].p, 1);
  }

  lemma ToThreadTwo()
    ensures var run, steps := EarlyStates(), EarlySteps(); Next(run[3], steps[3], run[4])
  {
    var run := EarlyStates();
    var p, p' := run[3].p, run[4].p;
    assert P.LeastRunnable(p, 2) by { assert P.RunnableAt(p, 2); }
    assert P.FirstFree(p.queue, 2, 3);
    assert P.Load(P.Requeue(p, 3), 2).threads == p'.threads;
    assert P.Load(P.Requeue(p, 3), 2).queue == p'.queue;
    assert P.SwitchTo(p, p', 3, 2);
  }

  lemma TwoLocks()
    ensures var run, steps := EarlyStates(), EarlySteps(); Next(run[4], steps[4], run[5])
  {
    var run := EarlyStates();
    assert Rewritten(run[4].p, run[5].s).threads == run[4].p.threads;
    assert run[5].s == Y.Lock(run[4].s, 2, 3);
  }

  lemma BackToThreadOne()
    ensures var run, steps := EarlyStates(), EarlySteps(); Next(run[5], steps[5], run[6])
  {
    var run := EarlyStates();
    var p, p' := run[5].p, run[6].p;
    assert P.LeastRunnable(p, 3) by { assert P.RunnableAt(p, 3); }
    assert P.FirstFree(p.queue, 3, 4);
    assert P.Load(P.Requeue(p, 4), 3).threads == p'.threads;
    assert P.Load(P.Requeue(p, 4), 3).queue == p'.queue;
    assert P.SwitchTo(p, p', 4, 3);
  }

  lemma Asks()
    ensures var run, steps := EarlyStates(), EarlySteps(); Next(run[6], steps[6], run[7])
  {
    var run := EarlyStates();
    var asked := Y.Lock(run[6].s, 1, 3);
    assert asked == Y.Park(run[6].s, 1, 3);
    assert asked.mutexes[3].waiting == [1];
    assert asked.mutexes == run[7].s.mutexes && asked.wait == run[7].s.wait && asked.locking == run[7].s.locking;
    assert Rewritten(run[6].p, run[7].s).threads == run[7].p.threads;
  }

  lemma Comes()
    ensures var j := EarlyStates()[7];
            && EarlyReturn(j) && Next(j, Schedule, j) && j.p.current == 1 && j.s.locking[1] == 3
            && j.s.wait[1] == Wait(3, 0, 0) && j.s.held == {(2, 3)}
  {
    var p := EarlyStates()[7].p;
    assert P.LeastRunnable(p, 4) by { assert P.RunnableAt(p, 4); }
    assert P.Stays(p, 4);
  }
}
