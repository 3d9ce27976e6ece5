/** smp/mutex.c and smp/condiction.c as operations on the records of mutexes, conditions and threads.
    Each operation runs with interrupts off, as one step. */
module Parking {
  import opened Waiting
  import opened Sync
  import SyncRuns

  class Kernel {
    var mutexes: map<nat, Mutex>
    var conditions: map<nat, seq<nat>>
    var wait: map<nat, Wait>
    ghost var held: set<(nat, nat)>
    ghost var locking: map<nat, nat>

    ghost function S(): State
      reads this
    {
      State(mutexes, conditions, wait, held, locking)
    }

    /** The given threads, none of them waiting, and no mutexes or conditions. */
    constructor (threads: set<nat>)
      ensures Inv(S()) && S() == SyncRuns.Start(threads)
      ensures mutexes == map[] && conditions == map[] && wait.Keys == threads && forall t <- threads :: wait[t] == Wait(0, 0, 0)
    {
      mutexes, conditions, held, locking := map[], map[], {}, map[];
      wait := map t | t in threads :: Wait(0, 0, 0);
      new;
      SyncRuns.StartOk(threads);
    }

    /** A thread that smp_thread_Start made: its wait record is empty. */
    method AddThread(t: nat)
      requires Inv(S()) && t !in wait
      modifies this`wait
      ensures Inv(S()) && wait == old(wait)[t := Wait(0, 0, 0)]
    {
      SyncRuns.CreateKeeps(S(), SyncRuns.NewThread(t));
      wait := wait[t := Wait(0, 0, 0)];
    }

    /** smp_Mutex_Create, at the address that kMalloc gave. */
    method CreateMutex(m: nat)
      requires Inv(S()) && m != 0 && m !in mutexes && m !in conditions
      modifies this`mutexes
      ensures Inv(S()) && mutexes == old(mutexes)[m := Mutex(false, [])]
    {
      SyncRuns.CreateKeeps(S(), SyncRuns.NewMutex(m));
      mutexes := mutexes[m := Mutex(false, [])];
    }

    /** smp_Condition_Create. */
    method CreateCondition(c: nat)
      requires Inv(S()) && c != 0 && c !in mutexes && c !in conditions
      modifies this`conditions
      ensures Inv(S()) && conditions == old(conditions)[c := []]
    {
      SyncRuns.CreateKeeps(S(), SyncRuns.NewCondition(c));
      conditions := conditions[c := []];
    }

    /** smp_Mutex_Lock by thread t, up to Yield; true when it got the mutex at once. */
    method Lock(t: nat, m: nat) returns (done: bool)
      requires Inv(S()) && Runs(S(), t) && m in mutexes && m != 0
      modifies this
      ensures Inv(S()) && S() == Sync.Lock(old(S()), t, m)
      ensures done <==> !old(mutexes)[m].locked
      ensures if done then (t, m) in held else Parked(S(), t) && held == old(held)
      ensures done ==> mutexes == old(mutexes)[m := Mutex(true, old(mutexes)[m].waiting)] && wait == old(wait)
      ensures !done ==> mutexes == old(mutexes)[m := Mutex(true, old(mutexes)[m].waiting + [t])] && wait == old(wait)[t := Wait(m, 0, 0)]
    {
      hide Inv;
      if !mutexes[m].locked {
        AcquireKeeps(S(), t, m);
        mutexes := mutexes[m := mutexes[m].(locked := true)];
        held := held + {(t, m)};
        return true;
      }
      ParkKeeps(S(), t, m);
      wait := wait[t := Wait(m, 0, 0)];
      mutexes := mutexes[m := mutexes[m].(waiting := mutexes[m].waiting + [t])];
      locking := locking[t := m];
      return false;
    }

    /** The rest of smp_Mutex_Lock, when Yield has come back to thread t: it owns the mutex. */
    method LockReturns(t: nat) returns (data: nat)
      requires Inv(S()) && t in locking && t in wait && !Parked(S(), t)
      modifies this`locking
      ensures Inv(S()) && S() == Return(old(S()), t)
      ensures data == 1 && (t, old(locking)[t]) in held && locking == old(locking) - {t}
    {
      ReturnOwns(S(), t);
      data := wait[t].data;
      locking := locking - {t};
    }

    method TryLock(t: nat, m: nat) returns (ok: bool)
      requires Inv(S()) && Runs(S(), t) && m in mutexes
      modifies this`mutexes, this`held
      ensures Inv(S()) && S() == Sync.TryLock(old(S()), t, m)
      ensures ok <==> !old(mutexes)[m].locked
      ensures if ok then held == old(held) + {(t, m)} && mutexes == old(mutexes)[m := Mutex(true, old(mutexes)[m].waiting)]
              else held == old(held) && mutexes == old(mutexes)
    {
      hide Inv;
      if !mutexes[m].locked {
        AcquireKeeps(S(), t, m);
        mutexes := mutexes[m := mutexes[m].(locked := true)];
        held := held + {(t, m)};
        return true;
      }
      return false;
    }

    /** smp_Mutex_Unlock by thread t, which holds m. */
    method Unlock(t: nat, m: nat)
      requires Inv(S()) && m in mutexes && Unlocks(S(), t, m)
      modifies this`mutexes, this`wait, this`held
      ensures Inv(S()) && S() == Sync.Unlock(old(S()), t, m)
      ensures mutexes[m].locked <==> old(mutexes)[m].waiting != []
      ensures (t, m) !in held && (mutexes[m].locked <==> m in Held(S()))
      ensures var l := old(mutexes)[m].waiting;
              if l == [] then mutexes == old(mutexes)[m := Mutex(false, [])] && wait == old(wait)
              else var w := l[|l| - 1];
                && mutexes == old(mutexes)[m := Mutex(true, l[..|l| - 1])] && w in old(wait) && wait == old(wait)[w := Wait(0, 1, 0)]
                && held == old(held) - {(t, m)} + {(w, m)}
    {
      hide Inv, MutexOk, Exclusive;
      var size := |mutexes[m].waiting|;
      HeldLocked(S(), t, m);
      if size > 0 {
        HandOff(S(), t, m);
        HeldLocked(Sync.Unlock(S(), t, m), mutexes[m].waiting[size - 1], m);
        var w := mutexes[m].waiting[size - 1];
        wait := wait[w := Wait(0, 1, 0)];
        mutexes := mutexes[m := mutexes[m].(waiting := mutexes[m].waiting[..size - 1])];
        held := held - {(t, m)} + {(w, m)};
      } else {
        FreeKeeps(S(), t, m);
        mutexes := mutexes[m := mutexes[m].(locked := false)];
        held := held - {(t, m)};
      }
    }

    /** smp_Condition_Wait by thread t, up to Yield. */
    method WaitOn(t: nat, c: nat)
      requires Inv(S()) && Runs(S(), t) && c in conditions && c != 0 && c !in mutexes
      modifies this`conditions, this`wait
      ensures Inv(S()) && S() == Park(old(S()), t, c) && Parked(S(), t)
      ensures conditions == old(conditions)[c := old(conditions)[c] + [t]] && wait == old(wait)[t := Wait(c, 0, 0)]
    {
      hide Inv;
      ParkKeeps(S(), t, c);
      wait := wait[t := Wait(c, 0, 0)];
      conditions := conditions[c := conditions[c] + [t]];
    }

    /** The rest of smp_Condition_Wait, when Yield has come back to thread t. */
    method WaitReturns(t: nat) returns (data: nat)
      requires Inv(S()) && Runs(S(), t)
      ensures wait[t] == Wait(0, data, 0)
    {
      hide LockingOk, ListOk, MutexOk, Exclusive;
      data := wait[t].data;
    }

    /** The last thread of the list is handed the data. */
    method NotifyOne(c: nat, data: nat) returns (ok: bool)
      requires Inv(S()) && c in conditions && c != 0 && c !in mutexes
      modifies this`conditions, this`wait
      ensures Inv(S()) && S() == Sync.NotifyOne(old(S()), c, data) && (ok <==> old(conditions)[c] != [])
      ensures var l := old(conditions)[c];
              if l == [] then conditions == old(conditions) && wait == old(wait)
              else var w := l[|l| - 1];
                && conditions == old(conditions)[c := l[..|l| - 1]]
                && w in old(wait) && wait == old(wait)[w := Wait(0, data, 0)]
    {
      hide Inv;
      var size := |conditions[c]|;
      if size == 0 { return false; }
      PopKeeps(S(), 0, c, data, Sync.NotifyOne(S(), c, data));
      ListedKnown(S(), c);
      assert conditions[c][size - 1] in conditions[c];
      NoTimeouts(S());
      var last := conditions[c][size - 1];
      wait := wait[last := wait[last].(on := 0, data := data)];
      conditions := conditions[c := conditions[c][..size - 1]];
      return true;
    }

    /** The result is 1 whenever someone was released; its header promises their number, which it is
        exactly when there was at most one. */
    method NotifyAll(c: nat, data: nat) returns (r: nat)
      requires Inv(S()) && c in conditions
      modifies this`conditions, this`wait
      ensures Inv(S()) && S() == Sync.NotifyAll(old(S()), c, data)
      ensures r == |old(conditions)[c]| <==> |old(conditions)[c]| <= 1
      ensures r == if old(conditions)[c] == [] then 0 else 1
      ensures conditions == old(conditions)[c := []] && wait.Keys == old(wait).Keys
      ensures forall t <- wait :: wait[t] == if t in old(conditions)[c] then Wait(0, data, 0) else old(wait)[t]
    {
      hide Inv;
      var size := |conditions[c]|;
      ghost var list := conditions[c];
      NotifyAllKeeps(S(), c, data);
      ListedKnown(S(), c);
      NoTimeouts(S());
      if size == 0 {
        assert Released(wait, [], data) == wait;
        assert conditions[c := []] == conditions;
        return 0;
      }
      var i := 0;
      while i < size
        invariant i <= size && conditions == old(conditions) && wait == Released(old(wait), list[..i], data)
      {
        assert list[i] in list;
        wait := wait[conditions[c][i] := wait[conditions[c][i]].(on := 0, data := data)];
        assert list[..i + 1] == list[..i] + [list[i]];
        i := i + 1;
      }
      assert list[..size] == list;
      conditions := conditions[c := []];
      return 1;
    }
  }

  lemma HeldLocked(s: State, t: nat, m: nat)
    requires Inv(s) && m in s.mutexes && (t, m) in s.held
    ensures m in Held(s) && s.mutexes[m].locked
  {
    var p := (t, m);
    assert p in s.held && p.1 == m;
    assert MutexOk(s, m);
  }

  lemma NoTimeouts(s: State)
    requires Inv(s)
    ensures forall t <- s.wait :: s.wait[t].timeout == 0
  {
  }

  lemma ListedKnown(s: State, c: nat)
    requires Inv(s) && c in s.conditions
    ensures forall t <- s.conditions[c] :: t in s.wait
  {
    assert ListOk(s, c);
  }
}
