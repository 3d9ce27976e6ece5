/** The scheduler as a step system (smp/kthread_switch.c, smp/kthread.c). Threads are numbered; the run
    queue maps keys, nice plus tick, to threads. Interrupt-disabled regions are single steps. */
module SchedulerSpec {
  import opened Waiting

  const UINT64_MAX: nat := 0xFFFF_FFFF_FFFF_FFFF

  datatype Thread = Thread(nice: nat, lastTick: nat, sleepUntil: nat, wait: Wait)

  /** current is 0 when the processor idles. */
  datatype State = State(now: nat, current: nat, queue: map<nat, nat>, threads: map<nat, Thread>, lastId: nat)

  predicate Runnable(t: Thread, now: nat) { t.sleepUntil <= now && !IsWaiting(t.wait, now) }

  /** Every live thread is either current or held by exactly one node of the run queue, and both hold
      live threads only. */
  ghost predicate Inv(s: State) {
    && (s.current != 0 ==> s.current in s.threads)
    && (forall k <- s.queue :: s.queue[k] in s.threads && s.queue[k] != s.current && s.queue[k] != 0)
    && (forall j <- s.queue, k <- s.queue | s.queue[j] == s.queue[k] :: j == k)
    && (forall t <- s.threads :: t == s.current || Queued(s, t))
    && (forall t <- s.threads :: 0 < t <= s.lastId)
  }

  ghost predicate Queued(s: State, t: nat) { exists k :: k in s.queue && s.queue[k] == t }

  predicate RunnableAt(s: State, k: nat) { k in s.queue && s.queue[k] in s.threads && Runnable(s.threads[s.queue[k]], s.now) }

  /** k is the least key of a runnable queued thread. */
  ghost predicate LeastRunnable(s: State, k: nat) { RunnableAt(s, k) && forall j | RunnableAt(s, j) :: k <= j }

  ghost predicate NoneRunnable(s: State) { forall j :: !RunnableAt(s, j) }

  function Max(a: nat, b: nat): nat { if a > b then a else b }

  /** The key with which the current thread would go back to the queue. */
  function Priority(s: State): nat {
    if s.current == 0 || s.current !in s.threads then UINT64_MAX
    else var t := s.threads[s.current]; t.nice + Max(t.lastTick, s.now)
  }

  /** The first free key from p on. */
  ghost predicate FirstFree(queue: map<nat, nat>, p: nat, key: nat) {
    p <= key && key !in queue && forall j | p <= j < key :: j in queue
  }

  /** The current thread back in the queue under a key. */
  function Requeue(s: State, key: nat): State {
    if s.current == 0 || s.current !in s.threads then s
    else s.(queue := s.queue[key := s.current], threads := s.threads[s.current := s.threads[s.current].(lastTick := s.now)])
  }

  /** The thread at k taken from the queue and loaded. */
  function Load(s: State, k: nat): State
    requires k in s.queue
  {
    s.(current := s.queue[k], queue := s.queue - {k})
  }

  /** smp_thread_Init: the running environment becomes thread 1. */
  function Initial(nice: nat): State { State(1, 1, map[], map[1 := Thread(nice, 1, 0, Wait(0, 0, 0))], 1) }

  // ----- the steps -----

  /** __smp_Switch returns at once when the current thread would still be first. */
  ghost predicate Stays(s: State, k: nat) { s.current != 0 && LeastRunnable(s, k) && k > Priority(s) }

  ghost predicate SwitchTo(s: State, s': State, key: nat, k: nat) {
    && (s.current != 0 ==> FirstFree(s.queue, Priority(s), key))
    && LeastRunnable(s, k) && (s.current == 0 || k <= Priority(s)) && k in Requeue(s, key).queue
    && s' == Load(Requeue(s, key), k)
  }

  ghost predicate SwitchToIdle(s: State, s': State, key: nat) {
    && (s.current != 0 ==> FirstFree(s.queue, Priority(s), key))
    && NoneRunnable(s) && s' == Requeue(s, key).(current := 0)
  }

  ghost predicate SwitchStep(s: State, s': State) {
    || (s' == s && exists k :: Stays(s, k))
    || (exists key, k :: SwitchTo(s, s', key, k))
    || (exists key :: SwitchToIdle(s, s', key))
  }

  ghost predicate TickStep(s: State, s': State) { s' == s.(now := s.now + 1) }

  function Started(s: State, nice: nat): State {
    var id := s.lastId + 1;
    s.(threads := s.threads[id := Thread(nice, s.now, 0, Wait(0, 0, 0))], queue := s.queue[s.now + nice := id], lastId := id)
  }

  ghost predicate StartStep(s: State, s': State) { exists nice: nat :: s.now + nice !in s.queue && s' == Started(s, nice) }

  function Slept(s: State, ticks: nat): State {
    if s.current !in s.threads then s
    else s.(threads := s.threads[s.current := s.threads[s.current].(sleepUntil := s.now + ticks)])
  }

  ghost predicate SleepStep(s: State, s': State) { s.current != 0 && exists ticks: nat :: s' == Slept(s, ticks) }

  ghost predicate CleanupStep(s: State, s': State) {
    s.current != 0 && s' == s.(threads := s.threads - {s.current}, current := 0)
  }

  /** A mutex or condition parks the current thread or releases parked ones. */
  ghost predicate WaitStep(s: State, s': State) {
    && s' == s.(threads := s'.threads) && s'.threads.Keys == s.threads.Keys
    && forall t <- s.threads :: s'.threads[t] == s.threads[t].(wait := s'.threads[t].wait)
  }

  ghost predicate OtherStep(s: State, s': State) {
    TickStep(s, s') || StartStep(s, s') || SleepStep(s, s') || CleanupStep(s, s') || WaitStep(s, s')
  }

  // ----- safety -----

  /** Every step keeps each live thread in exactly one place. */
  lemma SwitchKeepsInv(s: State, s': State)
    requires Inv(s) && SwitchStep(s, s')
    ensures Inv(s') && s'.threads.Keys == s.threads.Keys
  {
    if exists key, k :: SwitchTo(s, s', key, k) {
      var key, k :| SwitchTo(s, s', key, k);
      RequeueKeeps(s, key);
      LoadKeeps(Requeue(s, key), k, s.current);
    } else if exists key :: SwitchToIdle(s, s', key) {
      var key :| SwitchToIdle(s, s', key);
      RequeueKeeps(s, key);
    }
  }

  /** The thread just re-queued is the only one in two places, until current changes. */
  ghost predicate Between(s: State) { Inv(s.(current := 0)) }

  lemma RequeueKeeps(s: State, key: nat)
    requires Inv(s) && (s.current != 0 ==> key !in s.queue)
    ensures Between(Requeue(s, key)) && Requeue(s, key).threads.Keys == s.threads.Keys
  {
    var r := Requeue(s, key).(current := 0);
    forall t | t in r.threads
      ensures Queued(r, t)
    {
      if t == s.current { assert r.queue[key] == t; } else { var k :| k in s.queue && s.queue[k] == t; assert r.queue[k] == t; }
    }
  }

  lemma LoadKeeps(r: State, k: nat, c: nat)
    requires Between(r) && k in r.queue
    ensures Inv(Load(r, k))
  {
    var s' := Load(r, k);
    forall t | t in s'.threads && t != s'.current
      ensures Queued(s', t)
    {
      assert Queued(r.(current := 0), t);
      var j :| j in r.queue && r.queue[j] == t;
      assert s'.queue[j] == t;
    }
  }

  lemma StartKeepsInv(s: State, nice: nat)
    requires Inv(s) && s.now + nice !in s.queue
    ensures Inv(Started(s, nice))
  {
    var s', id := Started(s, nice), s.lastId + 1;
    assert id !in s.threads;
    assert s'.queue[s.now + nice] == id;
    forall t | t in s'.threads && t != s'.current
      ensures Queued(s', t)
    {
      if t != id { var k :| k in s.queue && s.queue[k] == t; assert s'.queue[k] == t; }
    }
  }

  /** smp_thread_Start does not look whether its key is taken: exactly then it loses the thread that
      was queued there. */
  lemma StartIffFreeKey(s: State, nice: nat)
    requires Inv(s)
    ensures Inv(Started(s, nice)) <==> s.now + nice !in s.queue
  {
    var s', k := Started(s, nice), s.now + nice;
    if k !in s.queue {
      StartKeepsInv(s, nice);
    } else {
      var lost := s.queue[k];
      assert lost in s'.threads && lost != s'.current;
      forall j | j in s'.queue
        ensures s'.queue[j] != lost
      {
        assert j != k ==> s'.queue[j] == s.queue[j];
      }
    }
  }

  /** That happens: two threads started in one tick with the same niceness. */
  lemma TwoStartsCollide(own: nat, nice: nat)
    ensures var s := Started(Initial(own), nice);
            && Inv(s) && StartStep(Initial(own), s) && s.now + nice in s.queue && !Inv(Started(s, nice))
            && 2 in Started(s, nice).threads && Started(s, nice).current != 2 && !Queued(Started(s, nice), 2)
  {
    StartKeepsInv(Initial(own), nice);
    StartIffFreeKey(Started(Initial(own), nice), nice);
  }

  lemma OtherKeepsInv(s: State, s': State)
    requires Inv(s) && OtherStep(s, s')
    ensures Inv(s')
  {
    if StartStep(s, s') {
      var nice: nat :| s.now + nice !in s.queue && s' == Started(s, nice);
      StartKeepsInv(s, nice);
    } else {
      assert s'.queue == s.queue;
      forall t | t in s'.threads && t != s'.current
        ensures Queued(s', t)
      {
        assert Queued(s, t);
      }
    }
  }

  /** A live thread is current or queued, not both, and queued once. */
  lemma OnePlace(s: State, t: nat)
    requires Inv(s) && t in s.threads
    ensures t == s.current <==> !Queued(s, t)
    ensures forall j, k | j in s.queue && k in s.queue && s.queue[j] == t && s.queue[k] == t :: j == k
  {
  }

  /** The invariant, and with it one place for each live thread, holds in every state of every run. */
  ghost predicate Run(run: seq<State>) {
    forall i | 0 <= i < |run| - 1 :: SwitchStep(run[i], run[i + 1]) || OtherStep(run[i], run[i + 1])
  }

  lemma {:induction false} RunSafe(run: seq<State>, i: nat)
    requires Run(run) && i < |run| && Inv(run[0])
    ensures Inv(run[i])
    ensures forall t <- run[i].threads :: t == run[i].current <==> !Queued(run[i], t)
  {
    forall t | t in run[i].threads && Inv(run[i])
      ensures t == run[i].current <==> !Queued(run[i], t)
    {
      OnePlace(run[i], t);
    }
    if i > 0 {
      RunSafe(run, i - 1);
      assert SwitchStep(run[i - 1], run[i - 1 + 1]) || OtherStep(run[i - 1], run[i - 1 + 1]);
      if SwitchStep(run[i - 1], run[i]) { SwitchKeepsInv(run[i - 1], run[i]); } else { OtherKeepsInv(run[i - 1], run[i]); }
    }
  }

  /** The loaded thread has the least key of all runnable threads in the queue, counting the one that
      was just put back. */
  lemma LoadsLeast(s: State, s': State, key: nat, k: nat)
    requires Inv(s) && SwitchTo(s, s', key, k)
    ensures LeastRunnable(Requeue(s, key), k) && s'.current == Requeue(s, key).queue[k] && k !in s'.queue
    ensures var t := s'.threads[s'.current]; t.sleepUntil <= s'.now && (t.wait.on == 0 || 0 < t.wait.timeout <= s'.now)
  {
    var q := Requeue(s, key);
    assert RunnableAt(s, k);
    forall j | RunnableAt(q, j)
      ensures k <= j
    {
      if j != key || s.current == 0 { assert RunnableAt(s, j); }
    }
    assert s.queue[k] != s.current;
  }

  // ----- a switch in terms of the fields -----

  lemma QueuedThreads(s: State)
    requires Inv(s)
    ensures forall k <- s.queue :: s.queue[k] in s.threads && s.queue[k] != s.current && s.queue[k] != 0
  {
  }

  /** A switch that loads a thread takes it from the least key at which a queued thread is neither
      asleep nor waiting without an end in the past; it has that key no longer, and every other node
      stays. */
  lemma Loaded(s: State, s': State)
    requires Inv(s) && SwitchStep(s, s') && s'.current != s.current && s'.current != 0
    ensures s'.current in s.threads && s'.now == s.now && s'.lastId == s.lastId
    ensures var t := s.threads[s'.current]; t.sleepUntil <= s.now && (t.wait.on == 0 || 0 < t.wait.timeout <= s.now)
    ensures exists k ::
              && k in s.queue && s.queue[k] == s'.current && k !in s'.queue
              && (forall j <- s.queue | j != k :: j in s'.queue && s'.queue[j] == s.queue[j])
              && forall j <- s.queue | j < k ::
                   var t := s.threads[s.queue[j]]; !(t.sleepUntil <= s.now && (t.wait.on == 0 || 0 < t.wait.timeout <= s.now))
  {
    hide Inv;
    QueuedThreads(s);
    var key: nat, k: nat :| SwitchTo(s, s', key, k);
    LoadedFrom(s, s', key, k);
  }

  lemma LoadedFrom(s: State, s': State, key: nat, k: nat)
    requires Inv(s) && SwitchTo(s, s', key, k)
    ensures k in s.queue && s.queue[k] == s'.current && k !in s'.queue && s'.current in s.threads
    ensures s'.now == s.now && s'.lastId == s.lastId
    ensures var t := s.threads[s'.current]; t.sleepUntil <= s.now && (t.wait.on == 0 || 0 < t.wait.timeout <= s.now)
    ensures forall j <- s.queue | j != k :: j in s'.queue && s'.queue[j] == s.queue[j]
    ensures forall j <- s.queue | j < k ::
              var t := s.threads[s.queue[j]]; !(t.sleepUntil <= s.now && (t.wait.on == 0 || 0 < t.wait.timeout <= s.now))
  {
    hide Inv;
    QueuedThreads(s);
    assert RunnableAt(s, k);
    forall j | j in s.queue && j < k
      ensures var t := s.threads[s.queue[j]]; !(t.sleepUntil <= s.now && (t.wait.on == 0 || 0 < t.wait.timeout <= s.now))
    {
      assert !RunnableAt(s, j);
    }
  }

  /** A switch that takes the processor from a thread queues it under the first free key from its
      niceness plus the later of its last tick and now, and notes the tick; no other thread's record
      and no other node is new. */
  lemma Requeued(s: State, s': State)
    requires Inv(s) && SwitchStep(s, s') && s'.current != s.current && s.current != 0
    ensures s.current in s.threads && s'.threads == s.threads[s.current := s.threads[s.current].(lastTick := s.now)]
    ensures var t := s.threads[s.current]; var p := t.nice + (if t.lastTick > s.now then t.lastTick else s.now);
            exists key :: p <= key && key !in s.queue && key in s'.queue && s'.queue[key] == s.current
                          && (forall j | p <= j < key :: j in s.queue) && forall j <- s'.queue | j != key :: j in s.queue && s'.queue[j] == s.queue[j]
  {
    if key: nat, k: nat :| SwitchTo(s, s', key, k) {
      assert k in s.queue && k != key;
      RequeuedAt(s, s', key);
    } else {
      var key: nat :| SwitchToIdle(s, s', key);
      RequeuedAt(s, s', key);
    }
  }

  lemma RequeuedAt(s: State, s': State, key: nat)
    requires s.current in s.threads && s.current != 0 && FirstFree(s.queue, Priority(s), key)
    requires key in s'.queue && s'.queue[key] == s.current && forall j <- s'.queue | j != key :: j in s.queue && s'.queue[j] == s.queue[j]
    ensures var t := s.threads[s.current]; var p := t.nice + (if t.lastTick > s.now then t.lastTick else s.now);
            exists key :: p <= key && key !in s.queue && key in s'.queue && s'.queue[key] == s.current
                          && (forall j | p <= j < key :: j in s.queue) && forall j <- s'.queue | j != key :: j in s.queue && s'.queue[j] == s.queue[j]
  {
  }

  /** A switch leaves the current thread alone exactly when the least key of a thread that could be
      loaded comes after the key that the current thread would get. */
  lemma Kept(s: State, s': State)
    requires Inv(s) && SwitchStep(s, s') && s.current != 0
    ensures s'.current == s.current ==> s' == s
    ensures var c := s.threads[s.current]; var p := c.nice + (if c.lastTick > s.now then c.lastTick else s.now);
            s'.current == s.current <==>
              && (exists k :: k in s.queue && var t := s.threads[s.queue[k]]; t.sleepUntil <= s.now && (t.wait.on == 0 || 0 < t.wait.timeout <= s.now))
              && (forall k <- s.queue | k <= p ::
                   var t := s.threads[s.queue[k]]; !(t.sleepUntil <= s.now && (t.wait.on == 0 || 0 < t.wait.timeout <= s.now)))
  {
    var p := Priority(s);
    forall k | k in s.queue
      ensures RunnableAt(s, k) <==> var t := s.threads[s.queue[k]]; t.sleepUntil <= s.now && (t.wait.on == 0 || 0 < t.wait.timeout <= s.now)
    {
    }
    if k: nat :| Stays(s, k) && s' == s {
      assert RunnableAt(s, k);
    } else if key: nat, k: nat :| SwitchTo(s, s', key, k) {
      assert RunnableAt(s, k) && k <= p;
    } else {
      assert NoneRunnable(s);
    }
  }

  /** smp_thread_Sleep does not take the caller off the processor, however long it was to sleep, exactly
      when there is a thread that could be loaded but all of them come after the caller's own key. */
  lemma SleepSkippedIff(s: State, ticks: nat, s': State)
    requires Inv(s) && s.current != 0 && SwitchStep(Slept(s, ticks), s')
    ensures var c := s.threads[s.current]; var p := c.nice + (if c.lastTick > s.now then c.lastTick else s.now);
            s'.current == s.current <==>
              && (exists k :: k in s.queue && var t := s.threads[s.queue[k]]; t.sleepUntil <= s.now && (t.wait.on == 0 || 0 < t.wait.timeout <= s.now))
              && (forall k <- s.queue | k <= p ::
                   var t := s.threads[s.queue[k]]; !(t.sleepUntil <= s.now && (t.wait.on == 0 || 0 < t.wait.timeout <= s.now)))
    ensures s'.current == s.current ==> s'.threads[s.current].sleepUntil == s.now + ticks && s'.now == s.now
  {
    hide Inv, SwitchStep;
    var s1 := Slept(s, ticks);
    CurrentThread(s);
    assert SleepStep(s, s1);
    OtherKeepsInv(s, s1);
    QueuedThreads(s);
    Kept(s1, s');
  }

  lemma CurrentThread(s: State)
    requires Inv(s)
    ensures s.current != 0 ==> s.current in s.threads
  {
  }

  /** A thread keeps the end of its sleep, unless it ends or sleeps again. */
  ghost predicate Asleep(s: State, x: nat, until: nat) {
    x <= s.lastId && (x in s.threads ==> s.threads[x].sleepUntil == until)
  }

  lemma SleepKept(s: State, s': State, x: nat, until: nat)
    requires Inv(s) && Asleep(s, x, until) && (SwitchStep(s, s') || OtherStep(s, s'))
    requires s.current == x ==> !SleepStep(s, s')
    ensures Asleep(s', x, until)
  {
  }

  lemma {:induction false} SleepLasts(run: seq<State>, x: nat, until: nat, i: nat, j: nat)
    requires Run(run) && i <= j < |run| && Inv(run[0]) && Asleep(run[i], x, until)
    requires forall k | i <= k < j && run[k].current == x :: !SleepStep(run[k], run[k + 1])
    ensures Asleep(run[j], x, until)
  {
    hide Inv, Asleep, SwitchStep, OtherStep, SleepStep;
    if i < j {
      SleepLasts(run, x, until, i, j - 1);
      RunSafe(run, j - 1);
      assert SwitchStep(run[j - 1], run[j - 1 + 1]) || OtherStep(run[j - 1], run[j - 1 + 1]);
      assert run[j - 1].current == x ==> !SleepStep(run[j - 1], run[j - 1 + 1]);
      SleepKept(run[j - 1], run[j], x, until);
    }
  }

  /** A thread that calls Sleep for some ticks, and does not call it again, is loaded in no state before
      they are over, whatever else happens. */
  lemma SleepsThrough(run: seq<State>, x: nat, ticks: nat, i: nat, j: nat)
    requires i < j && j + 1 < |run| && Run(run) && Inv(run[0]) && x != 0
    requires run[i].current == x && run[i + 1] == Slept(run[i], ticks)
    requires forall k | i < k < j && run[k].current == x :: !SleepStep(run[k], run[k + 1])
    requires run[j].current != x && run[j + 1].current == x
    ensures run[j + 1].now >= run[i].now + ticks
  {
    RunSafe(run, i);
    RunSafe(run, j);
    SleepLasts(run, x, run[i].now + ticks, i + 1, j);
    assert SwitchStep(run[j], run[j + 1]);
    Loaded(run[j], run[j + 1]);
  }

  // ----- starvation -----

  /** Queue keys below k. */
  ghost function Smaller(s: State, k: nat): set<nat> { set j | j in s.queue && j < k }

  /** Thread x waits at key k, runnable, and the time has come for k. */
  ghost predicate Waits(s: State, x: nat, k: nat) { RunnableAt(s, k) && s.queue[k] == x && s.now >= k }

  /** A switch that does not load x takes a node with a smaller key out of the queue and puts none in. */
  lemma SwitchProgress(s: State, s': State, x: nat, k: nat)
    requires Inv(s) && SwitchStep(s, s') && Waits(s, x, k) && Waits(s', x, k)
    ensures exists j :: j in Smaller(s, k) && Smaller(s', k) == Smaller(s, k) - {j}
  {
    assert RunnableAt(s, k);
    if j: nat :| Stays(s, j) {
      PriorityLate(s);
    } else if NoneRunnable(s) {
    } else {
      var key: nat, j: nat :| SwitchTo(s, s', key, j);
      ToProgress(s, s', x, k, key, j);
    }
  }

  lemma PriorityLate(s: State)
    requires Inv(s) && s.current != 0
    ensures Priority(s) >= s.now
  {
  }

  lemma ToProgress(s: State, s': State, x: nat, k: nat, key: nat, j: nat)
    requires Inv(s) && SwitchTo(s, s', key, j) && Waits(s, x, k) && Waits(s', x, k)
    ensures j in Smaller(s, k) && Smaller(s', k) == Smaller(s, k) - {j}
  {
    assert RunnableAt(s, k) && j <= k;
    assert j != k;
    if s.current != 0 {
      PriorityLate(s);
      assert key > k;
    }
  }

  lemma OtherProgress(s: State, s': State, x: nat, k: nat)
    requires Inv(s) && OtherStep(s, s') && Waits(s, x, k)
    ensures Smaller(s', k) == Smaller(s, k)
  {
  }

  /** Number of switches in a run. */
  ghost function Switches(run: seq<State>): nat {
    if |run| < 2 then 0 else (if OtherStep(run[0], run[1]) then 0 else 1) + Switches(run[1..])
  }

  /** Starvation bound: while a runnable thread waits at a key whose time has come, there are at most
      as many switches as there were smaller keys; the next one runs it. */
  lemma {:induction false} StarvationBound(run: seq<State>, x: nat, k: nat)
    requires run != [] && Run(run) && Inv(run[0])
    requires forall i | 0 <= i < |run| :: Waits(run[i], x, k)
    ensures Switches(run) <= |Smaller(run[0], k)|
  {
    if |run| >= 2 {
      var s, s', rest := run[0], run[1], run[1..];
      assert Waits(run[0], x, k) && Waits(run[1], x, k);
      assert SwitchStep(run[0], run[0 + 1]) || OtherStep(run[0], run[0 + 1]);
      RunSafe(run, 1);
      assert Run(rest) by {
        forall i | 0 <= i < |rest| - 1
          ensures SwitchStep(rest[i], rest[i + 1]) || OtherStep(rest[i], rest[i + 1])
        {
          assert rest[i] == run[i + 1] && rest[i + 1] == run[i + 1 + 1];
        }
      }
      StarvationBound(rest, x, k);
      if OtherStep(s, s') {
        OtherProgress(s, s', x, k);
      } else {
        SwitchProgress(s, s', x, k);
        var j :| j in Smaller(s, k) && Smaller(s', k) == Smaller(s, k) - {j};
      }
    }
  }

  // ----- idling -----

  /** A switch leaves the processor idle exactly when no queued thread is runnable, whatever the
      current thread could still do. */
  lemma IdlesIff(s: State, s': State)
    requires Inv(s) && SwitchStep(s, s')
    ensures s'.current == 0 <==> NoneRunnable(s)
    ensures s'.current == 0 <==>
              forall k <- s.queue ::
                var t := s.threads[s.queue[k]]; !(t.sleepUntil <= s.now && (t.wait.on == 0 || 0 < t.wait.timeout <= s.now))
    ensures s'.current == 0 && s.current != 0 ==> Queued(s', s.current)
  {
    if k: nat :| Stays(s, k) && s' == s {
      assert RunnableAt(s, k);
    } else if key: nat, k: nat :| SwitchTo(s, s', key, k) {
      assert RunnableAt(s, k) && s.queue[k] != 0;
    } else {
      var key: nat :| SwitchToIdle(s, s', key);
      if s.current != 0 { assert s'.queue[key] == s.current; }
      assert forall k <- s.queue :: !RunnableAt(s, k);
    }
  }

  /** The scheduler is not work-conserving: the processor idles beside a runnable queued thread exactly
      when the current thread was the only runnable one. */
  lemma IdlesBesideWorkIff(s: State, s': State)
    requires Inv(s) && SwitchStep(s, s')
    ensures s'.current == 0 && !NoneRunnable(s') <==>
            NoneRunnable(s) && s.current != 0 && Runnable(s.threads[s.current], s.now)
  {
    IdlesIff(s, s');
    if NoneRunnable(s) { OnlyIdles(s, s'); }
  }

  lemma IdlesOnly(s: State, s': State)
    requires SwitchStep(s, s') && NoneRunnable(s)
    ensures exists key :: SwitchToIdle(s, s', key)
  {
    forall k
      ensures !LeastRunnable(s, k)
    {
      assert !RunnableAt(s, k);
    }
  }

  /** After a switch to the idle loop the thread put back is the only one that may be runnable. */
  lemma OnlyIdles(s: State, s': State)
    requires Inv(s) && SwitchStep(s, s') && NoneRunnable(s)
    ensures !NoneRunnable(s') <==> s.current != 0 && Runnable(s.threads[s.current], s.now)
  {
    IdlesOnly(s, s');
    var key: nat :| SwitchToIdle(s, s', key);
    forall j | RunnableAt(s', j)
      ensures s.current != 0 && j == key && Runnable(s.threads[s.current], s.now)
    {
      assert !RunnableAt(s, j);
    }
    if s.current != 0 && Runnable(s.threads[s.current], s.now) { assert RunnableAt(s', key); }
  }

  /** The lone thread of a fresh system is swapped for the idle loop, and waits there, runnable. */
  lemma LoneThreadIdles(own: nat) returns (s': State)
    ensures SwitchStep(Initial(own), s') && s'.current == 0 && RunnableAt(s', own + 1) && s'.queue[own + 1] == 1
    ensures forall t | SwitchStep(Initial(own), t) :: t == s'
  {
    var s := Initial(own);
    s' := Requeue(s, own + 1).(current := 0);
    assert SwitchToIdle(s, s', own + 1);
    forall t | SwitchStep(s, t)
      ensures t == s'
    {
      LoneOnly(own, t);
    }
  }

  lemma LoneOnly(own: nat, t: State)
    requires SwitchStep(Initial(own), t)
    ensures t == Requeue(Initial(own), own + 1).(current := 0)
  {
    var s := Initial(own);
    IdlesOnly(s, t);
    var key: nat :| SwitchToIdle(s, t, key);
    assert FirstFree(s.queue, own + 1, key);
    assert own + 1 !in s.queue;
  }
}
