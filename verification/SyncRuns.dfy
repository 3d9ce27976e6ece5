/** Runs of the mutex and condition protocol, from a kernel with threads and no objects on. */
module SyncRuns {
  import opened Waiting
  import S = Sync

  datatype Op =
    | NewThread(t: nat)
    | NewMutex(m: nat)
    | NewCondition(c: nat)
    | Lock(t: nat, m: nat)
    | Return(t: nat)
    | TryLock(t: nat, m: nat)
    | Unlock(t: nat, m: nat)
    | WaitOn(t: nat, c: nat)
    | NotifyOne(c: nat, data: nat)
    | NotifyAll(c: nat, data: nat)

  /** What the source expects of its callers: running threads, objects that exist, fresh addresses for
      new ones, and that only a holder unlocks. Return is Yield coming back to a thread in Lock. */
  predicate Enabled(s: S.State, op: Op) {
    match op
    case NewThread(t) => t !in s.wait
    case NewMutex(m) => m != 0 && !S.Object(s, m)
    case NewCondition(c) => c != 0 && !S.Object(s, c)
    case Lock(t, m) => m in s.mutexes && m != 0 && S.Runs(s, t)
    case Return(t) => t in s.locking && t in s.wait && !S.Parked(s, t)
    case TryLock(t, m) => m in s.mutexes && S.Runs(s, t)
    case Unlock(t, m) => m in s.mutexes && S.Unlocks(s, t, m)
    case WaitOn(t, c) => c in s.conditions && c != 0 && S.Runs(s, t)
    case NotifyOne(c, _) => c in s.conditions && c != 0
    case NotifyAll(c, _) => c in s.conditions
  }

  function Apply(s: S.State, op: Op): S.State
    requires Enabled(s, op)
  {
    match op
    case NewThread(t) => s.(wait := s.wait[t := Wait(0, 0, 0)])
    case NewMutex(m) => s.(mutexes := s.mutexes[m := S.Mutex(false, [])])
    case NewCondition(c) => s.(conditions := s.conditions[c := []])
    case Lock(t, m) => S.Lock(s, t, m)
    case Return(t) => S.Return(s, t)
    case TryLock(t, m) => S.TryLock(s, t, m)
    case Unlock(t, m) => S.Unlock(s, t, m)
    case WaitOn(t, c) => S.Park(s, t, c)
    case NotifyOne(c, data) => S.NotifyOne(s, c, data)
    case NotifyAll(c, data) => S.NotifyAll(s, c, data)
  }

  /** Some threads, none of them waiting. */
  function Start(threads: set<nat>): S.State {
    S.State(map[], map[], map t | t in threads :: Wait(0, 0, 0), {}, map[])
  }

  ghost predicate Run(run: seq<S.State>, ops: seq<Op>) {
    |run| == |ops| + 1 && forall i | 0 <= i < |ops| :: Enabled(run[i], ops[i]) && run[i + 1] == Apply(run[i], ops[i])
  }

  predicate Creates(s: S.State, op: Op) { Enabled(s, op) && (op.NewThread? || op.NewMutex? || op.NewCondition?) }

  lemma CreateList(s: S.State, op: Op, y: nat)
    requires S.Inv(s) && Creates(s, op) && S.Object(Apply(s, op), y)
    ensures S.ListOk(Apply(s, op), y)
  {
    hide S.LockingOk, S.MutexOk, S.Exclusive;
    assert S.Object(s, y) ==> S.ListOk(s, y);
  }

  lemma CreateLocking(s: S.State, op: Op, u: nat)
    requires S.Inv(s) && Creates(s, op) && u in s.locking
    ensures S.LockingOk(Apply(s, op), u)
  {
    hide S.ListOk, S.MutexOk, S.Exclusive;
    assert S.LockingOk(s, u);
  }

  lemma CreateKeeps(s: S.State, op: Op)
    requires S.Inv(s) && Creates(s, op)
    ensures S.Inv(Apply(s, op))
  {
    hide S.ListOk, S.LockingOk;
    var s' := Apply(s, op);
    forall y | S.Object(s', y)
      ensures S.ListOk(s', y)
    {
      CreateList(s, op, y);
    }
    forall u | u in s'.locking
      ensures S.LockingOk(s', u)
    {
      CreateLocking(s, op, u);
    }
  }

  /** Every operation keeps the protocol invariant. */
  lemma OpKeeps(s: S.State, op: Op)
    requires S.Inv(s) && Enabled(s, op)
    ensures S.Inv(Apply(s, op))
  {
    hide S.Inv, S.LockingOk, S.ListOk, S.MutexOk, S.Exclusive;
    match op
    case NewThread(t) => CreateKeeps(s, op);
    case NewMutex(m) => CreateKeeps(s, op);
    case NewCondition(c) => CreateKeeps(s, op);
    case Lock(t, m) => if s.mutexes[m].locked { S.ParkKeeps(s, t, m); } else { S.AcquireKeeps(s, t, m); }
    case Return(t) => S.ReturnOwns(s, t);
    case TryLock(t, m) => if !s.mutexes[m].locked { S.AcquireKeeps(s, t, m); }
    case Unlock(t, m) => UnlockKeeps(s, t, m);
    case WaitOn(t, c) => S.ListsOk(s, c); S.ParkKeeps(s, t, c);
    case NotifyOne(c, data) => NotifyKeeps(s, c, data);
    case NotifyAll(c, data) => S.NotifyAllKeeps(s, c, data);
  }

  lemma UnlockKeeps(s: S.State, t: nat, m: nat)
    requires S.Inv(s) && m in s.mutexes && S.Unlocks(s, t, m)
    ensures S.Inv(S.Unlock(s, t, m))
  {
    hide S.Inv, S.LockingOk, S.ListOk, S.MutexOk, S.Exclusive;
    if s.mutexes[m].waiting == [] { S.FreeKeeps(s, t, m); } else { S.HandOff(s, t, m); }
  }

  lemma NotifyKeeps(s: S.State, c: nat, data: nat)
    requires S.Inv(s) && c in s.conditions && c != 0
    ensures S.Inv(S.NotifyOne(s, c, data))
  {
    hide S.Inv, S.LockingOk, S.ListOk, S.MutexOk, S.Exclusive;
    S.ListsOk(s, c);
    if s.conditions[c] != [] { S.PopKeeps(s, 0, c, data, S.NotifyOne(s, c, data)); }
  }

  predicate Last(l: seq<nat>, t: nat) { l != [] && l[|l| - 1] == t }

  /** The operation lets t go: t is the last one parked on the mutex or condition, or all are let go. */
  predicate Releases(s: S.State, op: Op, t: nat)
    requires Enabled(s, op)
  {
    match op
    case Unlock(_, m) => Last(s.mutexes[m].waiting, t)
    case NotifyOne(c, _) => Last(s.conditions[c], t)
    case NotifyAll(c, _) => t in s.conditions[c]
    case _ => false
  }

  /** The object an operation is about, and what a released thread is handed. */
  function Target(op: Op): nat {
    match op
    case Unlock(_, m) => m
    case NotifyOne(c, _) => c
    case NotifyAll(c, _) => c
    case _ => 0
  }

  function Handed(op: Op): nat {
    match op
    case NotifyOne(_, data) => data
    case NotifyAll(_, data) => data
    case _ => 1
  }

  predicate Parks(op: Op, t: nat) { (op.Lock? || op.WaitOn?) && op.t == t }

  /** Only the thread itself and whoever lets it go write a thread's wait record. */
  lemma RecordStep(s: S.State, op: Op, t: nat)
    requires S.Inv(s) && Enabled(s, op) && t in s.wait && !Parks(op, t)
    ensures var s' := Apply(s, op);
            && t in s'.wait
            && if Releases(s, op, t) then s'.wait[t] == Wait(0, Handed(op), 0) && s.wait[t].on == Target(op) != 0
               else s'.wait[t] == s.wait[t]
  {
    hide S.LockingOk, S.MutexOk, S.Exclusive;
    match op
    case Unlock(_, m) => S.ListsOk(s, m);
    case NotifyOne(c, _) => S.ListsOk(s, c);
    case NotifyAll(c, _) => assert c != 0; S.ListsOk(s, c);
    case _ =>
  }

  /** What Yield comes back with: a parked thread stays parked, its record untouched, until someone
      lets it go from the object it waits for, and then its record holds what that one handed over,
      1 for a mutex and the data of the notification for a condition. */
  lemma {:induction false} HandedOver(run: seq<S.State>, ops: seq<Op>, threads: set<nat>, i: nat, j: nat, t: nat)
    requires Run(run, ops) && run[0] == Start(threads) && i <= j < |run| && S.Parked(run[i], t)
    requires forall k | i <= k < j :: !Parks(ops[k], t)
    ensures t in run[j].wait
    ensures S.Parked(run[j], t) ==> run[j].wait[t] == run[i].wait[t] && forall k | i <= k < j :: !Releases(run[k], ops[k], t)
    ensures !S.Parked(run[j], t) ==>
              exists k :: i <= k < j && Releases(run[k], ops[k], t) && Target(ops[k]) == run[i].wait[t].on
                          && run[j].wait[t] == Wait(0, Handed(ops[k]), 0)
  {
    hide S.Inv, Apply, Releases;
    if i < j {
      HandedOver(run, ops, threads, i, j - 1, t);
      RunSafe(run, ops, threads, j - 1);
      RecordStep(run[j - 1], ops[j - 1], t);
      assert run[j - 1 + 1] == Apply(run[j - 1], ops[j - 1]);
    }
  }

  lemma StartOk(threads: set<nat>)
    ensures S.Inv(Start(threads))
  {
  }

  lemma {:induction false} RunSafe(run: seq<S.State>, ops: seq<Op>, threads: set<nat>, i: nat)
    requires Run(run, ops) && run[0] == Start(threads) && i < |run|
    ensures S.Inv(run[i])
  {
    hide S.Inv, Apply;
    if i == 0 {
      StartOk(threads);
    } else {
      RunSafe(run, ops, threads, i - 1);
      OpKeeps(run[i - 1], ops[i - 1]);
      assert run[i - 1 + 1] == Apply(run[i - 1], ops[i - 1]);
    }
  }

  /** Mutual exclusion: in every state of every run a mutex is locked exactly when a thread holds it,
      and never do two threads hold it. */
  lemma MutualExclusion(run: seq<S.State>, ops: seq<Op>, threads: set<nat>, i: nat, m: nat)
    requires Run(run, ops) && run[0] == Start(threads) && i < |run| && m in run[i].mutexes
    ensures forall t, u | (t, m) in run[i].held && (u, m) in run[i].held :: t == u
    ensures run[i].mutexes[m].locked <==> exists t :: (t, m) in run[i].held
    ensures run[i].mutexes[m].waiting != [] ==> run[i].mutexes[m].locked
  {
    RunSafe(run, ops, threads, i);
    var s := run[i];
    assert S.MutexOk(s, m);
    if s.mutexes[m].locked {
      var p :| p in s.held && p.1 == m;
      assert (p.0, m) in s.held;
    }
    forall t, u | (t, m) in s.held && (u, m) in s.held
      ensures t == u
    {
      var p, q := (t, m), (u, m);
      assert p in s.held && q in s.held && p.1 == q.1;
    }
  }
}
