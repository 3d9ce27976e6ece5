/** Mutexes and conditions (smp/mutex.c, smp/condiction.c) as a protocol between threads: parking,
    direct hand-off, notification. Timeout is 0 throughout; a parked thread comes back from Yield only
    after its wait record was cleared. Threads, mutexes and conditions are numbered from 1. */
module Sync {
  import opened Waiting

  datatype Mutex = Mutex(locked: bool, waiting: seq<nat>)

  /** held and locking are not in the source. held collects a pair (thread, mutex) whenever a thread is
      let in, by Lock, TryLock or hand-off, and loses the pair of the thread that unlocks; nothing in it
      keeps two threads from holding one mutex. locking tells who is inside Lock. */
  datatype State = State(mutexes: map<nat, Mutex>, conditions: map<nat, seq<nat>>, wait: map<nat, Wait>,
                         held: set<(nat, nat)>, locking: map<nat, nat>)

  predicate Parked(s: State, t: nat) { t in s.wait && s.wait[t].on != 0 }

  /** The list of threads parked on an object. */
  function List(s: State, x: nat): seq<nat> {
    if x in s.mutexes then s.mutexes[x].waiting else if x in s.conditions then s.conditions[x] else []
  }

  predicate Object(s: State, x: nat) { x != 0 && (x in s.mutexes || x in s.conditions) }

  ghost predicate NoDup(l: seq<nat>) { forall i, j | 0 <= i < j < |l| :: l[i] != l[j] }

  /** A list holds exactly the threads whose record names its object, each once. */
  ghost predicate ListOk(s: State, x: nat) {
    NoDup(List(s, x)) && forall t :: t in List(s, x) <==> t in s.wait && s.wait[t].on == x
  }

  /** No mutex is held by two threads. */
  ghost predicate Exclusive(s: State) { forall p <- s.held, q <- s.held | p.1 == q.1 :: p == q }

  ghost function Held(s: State): set<nat> { set p <- s.held :: p.1 }

  /** A mutex is locked exactly when it is held, and threads wait for it only then. */
  ghost predicate MutexOk(s: State, m: nat) {
    && m in s.mutexes && (s.mutexes[m].locked <==> m in Held(s))
    && (s.mutexes[m].waiting != [] ==> s.mutexes[m].locked)
  }

  /** A thread that called Lock on m and has not returned is parked there, or was handed the mutex. */
  ghost predicate LockingOk(s: State, t: nat) {
    && t in s.locking && t in s.wait && s.locking[t] in s.mutexes
    && if Parked(s, t) then s.wait[t].on == s.locking[t] && s.wait[t].data == 0
       else s.wait[t].data == 1 && (t, s.locking[t]) in s.held
  }

  ghost predicate Inv(s: State) {
    && (forall t {:trigger LockingOk(s, t)} | t in s.locking :: LockingOk(s, t))
    && (forall t <- s.wait | s.wait[t].on in s.mutexes :: t in s.locking)
    && (forall m <- s.mutexes :: m !in s.conditions && MutexOk(s, m))
    && Exclusive(s) && (forall p <- s.held :: p.0 in s.wait && p.1 in s.mutexes)
    && (forall x {:trigger ListOk(s, x)} | Object(s, x) :: ListOk(s, x))
    && (forall t <- s.wait :: (s.wait[t].on == 0 || Object(s, s.wait[t].on)) && s.wait[t].timeout == 0)
    && 0 !in s.mutexes && 0 !in s.conditions
  }

  // ----- the steps -----

  function Park(s: State, t: nat, x: nat): State
    requires Object(s, x)
  {
    var s1 := s.(wait := s.wait[t := Wait(x, 0, 0)]);
    if x in s.mutexes then
      s1.(mutexes := s.mutexes[x := s.mutexes[x].(waiting := s.mutexes[x].waiting + [t])], locking := s.locking[t := x])
    else s1.(conditions := s.conditions[x := s.conditions[x] + [t]])
  }

  function Acquire(s: State, t: nat, m: nat): State
    requires m in s.mutexes
  {
    s.(mutexes := s.mutexes[m := s.mutexes[m].(locked := true)], held := s.held + {(t, m)})
  }

  function Lock(s: State, t: nat, m: nat): State
    requires m in s.mutexes && m != 0
  {
    if s.mutexes[m].locked then Park(s, t, m) else Acquire(s, t, m)
  }

  function TryLock(s: State, t: nat, m: nat): State
    requires m in s.mutexes
  {
    if s.mutexes[m].locked then s else Acquire(s, t, m)
  }

  /** Unlock by thread t: the last one parked takes over; without waiters the mutex is unlocked. */
  function Unlock(s: State, t: nat, m: nat): State
    requires m in s.mutexes
  {
    var l, held := s.mutexes[m].waiting, s.held - {(t, m)};
    if l == [] then s.(mutexes := s.mutexes[m := s.mutexes[m].(locked := false)], held := held)
    else
      var w := l[|l| - 1];
      s.(mutexes := s.mutexes[m := s.mutexes[m].(waiting := l[..|l| - 1])], wait := s.wait[w := Wait(0, 1, 0)], held := held + {(w, m)})
  }

  /** The record of a thread that a condition releases. */
  function Notified(w: Wait, data: nat): Wait { w.(on := 0, data := data) }

  function NotifyOne(s: State, c: nat, data: nat): State
    requires c in s.conditions
  {
    var l := s.conditions[c];
    if l == [] || l[|l| - 1] !in s.wait then s
    else s.(conditions := s.conditions[c := l[..|l| - 1]], wait := s.wait[l[|l| - 1] := Notified(s.wait[l[|l| - 1]], data)])
  }

  function Released(wait: map<nat, Wait>, l: seq<nat>, data: nat): map<nat, Wait> {
    map t | t in wait :: if t in l then Notified(wait[t], data) else wait[t]
  }

  function NotifyAll(s: State, c: nat, data: nat): State
    requires c in s.conditions
  {
    s.(conditions := s.conditions[c := []], wait := Released(s.wait, s.conditions[c], data))
  }

  /** Back from Yield: Lock returns the data of the wait record. */
  function Return(s: State, t: nat): State { s.(locking := s.locking - {t}) }

  // ----- every step keeps the invariant -----

  /** Thread t may act: it is not parked, nor on its way back into Lock. */
  predicate Runs(s: State, t: nat) { t in s.wait && !Parked(s, t) && t !in s.locking }

  ghost predicate CanPark(s: State, t: nat, x: nat) {
    Inv(s) && Runs(s, t) && Object(s, x) && (x in s.mutexes ==> s.mutexes[x].locked)
  }

  lemma ParkList(s: State, t: nat, x: nat, y: nat)
    requires CanPark(s, t, x) && Object(s, y)
    ensures ListOk(Park(s, t, x), y)
  {
    hide LockingOk, MutexOk, Exclusive;
    assert ListOk(s, x) && ListOk(s, y);
  }

  lemma ParkLocking(s: State, t: nat, x: nat, u: nat)
    requires CanPark(s, t, x) && u in Park(s, t, x).locking
    ensures LockingOk(Park(s, t, x), u)
  {
    hide ListOk, MutexOk, Exclusive;
    assert u != t ==> LockingOk(s, u);
  }

  lemma SameHeld(s: State, s': State)
    requires s'.held == s.held
    ensures Exclusive(s) ==> Exclusive(s')
    ensures Held(s') == Held(s)
  {
  }

  lemma ParkMutexes(s: State, t: nat, x: nat)
    requires CanPark(s, t, x)
    ensures forall m <- Park(s, t, x).mutexes :: m !in Park(s, t, x).conditions && MutexOk(Park(s, t, x), m)
  {
    hide ListOk, LockingOk, Exclusive;
    ListsOk(s, x);
    SameHeld(s, Park(s, t, x));
  }

  lemma ParkKeeps(s: State, t: nat, x: nat)
    requires Inv(s) && Runs(s, t) && Object(s, x) && (x in s.mutexes ==> s.mutexes[x].locked)
    ensures Inv(Park(s, t, x)) && Park(s, t, x).held == s.held
    ensures List(Park(s, t, x), x) == List(s, x) + [t] && Parked(Park(s, t, x), t)
  {
    hide ListOk, LockingOk, MutexOk, Exclusive, Held;
    var s' := Park(s, t, x);
    ListsOk(s, x);
    SameHeld(s, s');
    ParkMutexes(s, t, x);
    forall y | Object(s', y)
      ensures ListOk(s', y)
    {
      ParkList(s, t, x, y);
    }
    forall u | u in s'.locking
      ensures LockingOk(s', u)
    {
      ParkLocking(s, t, x, u);
    }
  }

  lemma AcquireList(s: State, t: nat, m: nat, y: nat)
    requires Inv(s) && m in s.mutexes && Object(s, y)
    ensures ListOk(Acquire(s, t, m), y)
  {
    hide LockingOk, MutexOk, Exclusive;
    assert ListOk(s, y);
  }

  lemma AcquireLocking(s: State, t: nat, m: nat, u: nat)
    requires Inv(s) && m in s.mutexes && u in s.locking
    ensures LockingOk(Acquire(s, t, m), u)
  {
    hide ListOk, MutexOk, Exclusive;
    assert LockingOk(s, u);
  }

  lemma AcquireKeeps(s: State, t: nat, m: nat)
    requires Inv(s) && m in s.mutexes && !s.mutexes[m].locked && Runs(s, t)
    ensures Inv(Acquire(s, t, m))
  {
    hide ListOk, LockingOk;
    var s' := Acquire(s, t, m);
    assert MutexOk(s, m);
    forall y | Object(s', y)
      ensures ListOk(s', y)
    {
      AcquireList(s, t, m, y);
    }
    forall u | u in s'.locking
      ensures LockingOk(s', u)
    {
      AcquireLocking(s, t, m, u);
    }
  }

  /** Thread t may unlock m: it holds it and runs. */
  predicate Unlocks(s: State, t: nat, m: nat) { (t, m) in s.held && Runs(s, t) }

  /** The last thread of a list is let go, by thread t when the list is that of a mutex. */
  ghost predicate Popped(s: State, t: nat, x: nat, data: nat, s': State) {
    && Inv(s) && Object(s, x) && List(s, x) != [] && (x in s.mutexes ==> Unlocks(s, t, x))
    && s' == if x in s.mutexes then Unlock(s, t, x) else NotifyOne(s, x, data)
  }

  lemma PopList(s: State, t: nat, x: nat, data: nat, s': State, y: nat)
    requires Popped(s, t, x, data, s') && Object(s, y)
    ensures ListOk(s', y)
  {
    hide LockingOk, MutexOk, Inv;
    ListsOk(s, x);
    ListsOk(s, y);
    var l := List(s, x);
    var w := l[|l| - 1];
    assert w in l;
    if y == x { assert forall u :: u in l[..|l| - 1] <==> u in l && u != w; }
  }

  lemma ListsOk(s: State, x: nat)
    requires Inv(s) && Object(s, x)
    ensures ListOk(s, x) && !(x in s.mutexes && x in s.conditions)
  {
  }

  lemma PopLocking(s: State, t: nat, x: nat, data: nat, s': State, u: nat)
    requires Popped(s, t, x, data, s') && u in s.locking
    ensures LockingOk(s', u)
  {
    var l := List(s, x);
    assert ListOk(s, x) && LockingOk(s, u);
    assert l[|l| - 1] in l;
  }

  lemma PopKeeps(s: State, t: nat, x: nat, data: nat, s': State)
    requires Popped(s, t, x, data, s')
    ensures Inv(s')
    ensures var w := List(s, x)[|List(s, x)| - 1];
            && Parked(s, w) && !Parked(s', w) && List(s', x) == List(s, x)[..|List(s, x)| - 1]
            && forall u | u != w :: Parked(s', u) == Parked(s, u)
  {
    hide ListOk, LockingOk;
    PopParked(s, t, x, data, s');
    forall y | Object(s', y)
      ensures ListOk(s', y)
    {
      PopList(s, t, x, data, s', y);
    }
    forall u | u in s'.locking
      ensures LockingOk(s', u)
    {
      PopLocking(s, t, x, data, s', u);
    }
  }

  lemma PopParked(s: State, t: nat, x: nat, data: nat, s': State)
    requires Popped(s, t, x, data, s')
    ensures var w := List(s, x)[|List(s, x)| - 1];
            && Parked(s, w) && !Parked(s', w) && List(s', x) == List(s, x)[..|List(s, x)| - 1]
            && s.wait[w].on == x && forall u | u != w :: Parked(s', u) == Parked(s, u)
  {
    hide ListOk, LockingOk, Inv;
    ListedParked(s, x, |List(s, x)| - 1);
    ListsOk(s, x);
  }

  lemma ListedParked(s: State, x: nat, i: nat)
    requires Inv(s) && Object(s, x) && i < |List(s, x)|
    ensures List(s, x)[i] in s.wait && s.wait[List(s, x)[i]].on == x
  {
    assert ListOk(s, x);
    assert List(s, x)[i] in List(s, x);
  }

  /** Unlocking with waiters hands the mutex to exactly one of them: it is locked before and after. */
  lemma HandOff(s: State, t: nat, m: nat)
    requires Inv(s) && m in s.mutexes && Unlocks(s, t, m) && s.mutexes[m].waiting != []
    ensures var s', l := Unlock(s, t, m), s.mutexes[m].waiting; var w := l[|l| - 1];
            && Inv(s') && s'.mutexes[m].locked && w != t && Parked(s, w) && s'.wait[w] == Wait(0, 1, 0)
            && (w, m) in s'.held && (forall u | (u, m) in s'.held :: u == w)
            && (forall u | u != w :: Parked(s', u) == Parked(s, u))
            && (forall n <- s.mutexes | n != m :: s'.mutexes[n] == s.mutexes[n] && forall u :: (u, n) in s'.held <==> (u, n) in s.held)
  {
    PopKeeps(s, t, m, 0, Unlock(s, t, m));
  }

  lemma FreeKeeps(s: State, t: nat, m: nat)
    requires Inv(s) && m in s.mutexes && Unlocks(s, t, m) && s.mutexes[m].waiting == []
    ensures Inv(Unlock(s, t, m)) && m !in Held(Unlock(s, t, m)) && !Unlock(s, t, m).mutexes[m].locked
  {
    var s' := Unlock(s, t, m);
    forall y | Object(s', y)
      ensures ListOk(s', y)
    {
      assert ListOk(s, y);
    }
    forall u | u in s'.locking
      ensures LockingOk(s', u)
    {
      assert LockingOk(s, u);
    }
  }

  /** NotifyAll lets go of all threads parked on the condition and of no others. */
  lemma NotifyAllKeeps(s: State, c: nat, data: nat)
    requires Inv(s) && c in s.conditions
    ensures Inv(NotifyAll(s, c, data))
    ensures forall t :: Parked(NotifyAll(s, c, data), t) <==> Parked(s, t) && s.wait[t].on != c
    ensures forall t <- s.wait | s.wait[t].on == c :: NotifyAll(s, c, data).wait[t] == Wait(0, data, 0)
  {
    var s' := NotifyAll(s, c, data);
    assert c !in s.mutexes;
    assert ListOk(s, c);
    forall y | Object(s', y)
      ensures ListOk(s', y)
    {
      assert ListOk(s, y);
    }
    forall u | u in s'.locking
      ensures LockingOk(s', u)
    {
      assert LockingOk(s, u);
    }
  }

  /** A thread comes back from Lock with 1, the owner of the mutex it asked for. */
  lemma ReturnOwns(s: State, t: nat)
    requires Inv(s) && t in s.locking && t in s.wait && !Parked(s, t)
    ensures Inv(Return(s, t)) && s.wait[t].data == 1
    ensures (t, s.locking[t]) in s.held && s.mutexes[s.locking[t]].locked
  {
    assert LockingOk(s, t);
    var s' := Return(s, t);
    forall u | u in s'.locking
      ensures LockingOk(s', u)
    {
      assert LockingOk(s, u);
    }
    forall y | Object(s', y)
      ensures ListOk(s', y)
    {
      assert ListOk(s, y);
    }
  }

  /** A parked thread stands in exactly one list, exactly once. */
  lemma OneObject(s: State, t: nat, x: nat, i: nat, y: nat, j: nat)
    requires Inv(s) && Object(s, x) && Object(s, y) && i < |List(s, x)| && j < |List(s, y)|
    requires List(s, x)[i] == t && List(s, y)[j] == t
    ensures x == y && i == j && Parked(s, t) && s.wait[t].on == x
  {
    assert ListOk(s, x) && ListOk(s, y);
    assert t in List(s, x) && t in List(s, y);
  }

  // ----- fairness -----

  /** One round: t parks on a mutex held by o, o unlocks it, and t returns. */
  function Round(s: State, o: nat, t: nat, m: nat): State
    requires m in s.mutexes && m != 0 && s.mutexes[m].locked
  {
    Return(Unlock(Park(s, t, m), o, m), t)
  }

  lemma RoundKeeps(s: State, o: nat, t: nat, m: nat)
    requires Inv(s) && m in s.mutexes && m != 0 && Unlocks(s, o, m) && s.mutexes[m].locked && Runs(s, t) && t != o
    ensures var s' := Round(s, o, t, m);
            && Inv(s') && m in s'.mutexes && s'.mutexes[m] == s.mutexes[m] && Unlocks(s', t, m)
            && forall u | Runs(s, u) :: Runs(s', u)
  {
    hide Inv, LockingOk, MutexOk, ListOk, Exclusive;
    ParkKeeps(s, t, m);
    HandOff(Park(s, t, m), o, m);
    ReturnOwns(Unlock(Park(s, t, m), o, m), t);
    assert Round(s, o, t, m).mutexes[m].waiting == s.mutexes[m].waiting;
  }

  lemma WaitersParked(s: State, o: nat, m: nat)
    requires Inv(s) && m in s.mutexes && Unlocks(s, o, m)
    ensures s.mutexes[m].locked && m != 0
    ensures forall t <- s.mutexes[m].waiting :: t in s.wait && s.wait[t].on == m
  {
    assert ListOk(s, m);
    assert m in Held(s);
  }

  /** Waiters are served last in, first out: any number of rounds by threads that come later leaves
      the older waiters where they are. */
  lemma {:induction false} LatecomersFirst(s: State, o: nat, ts: seq<nat>, m: nat) returns (s': State)
    requires Inv(s) && m in s.mutexes && Unlocks(s, o, m) && (forall t <- ts :: Runs(s, t))
    requires forall i, j | 0 <= i < j == i + 1 < |ts| :: ts[i] != ts[j]
    requires ts != [] ==> ts[0] != o
    ensures Inv(s') && m in s'.mutexes && s'.mutexes[m] == s.mutexes[m]
    ensures Unlocks(s', if ts == [] then o else ts[|ts| - 1], m)
    ensures forall t <- s.mutexes[m].waiting :: t in s'.wait && s'.wait[t].on == m
    ensures forall t | Runs(s, t) :: Runs(s', t)
    decreases |ts|
  {
    hide Inv, Round;
    if ts == [] {
      s' := s;
      WaitersParked(s', o, m);
    } else {
      var n := |ts| - 1;
      var before := LatecomersFirst(s, o, ts[..n], m);
      var o' := if n == 0 then o else ts[n - 1];
      assert ts[n] in ts;
      if n > 0 { assert ts[n - 1] != ts[n]; }
      WaitersParked(before, o', m);
      RoundKeeps(before, o', ts[n], m);
      s' := Round(before, o', ts[n], m);
      WaitersParked(s', ts[n], m);
    }
  }
}
