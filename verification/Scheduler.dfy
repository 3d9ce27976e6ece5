/** The scheduler over the treap of util/tree.c (smp/kthread_switch.c, smp/kthread.c). The thread a
    node's data points to is kept by the node's key. */
module Scheduler {
  import opened Waiting
  import opened TreapSpec
  import opened Treap
  import opened SchedulerSpec

  class Processor {
    var now: nat                   // __smp_Now
    var current: nat               // __smp_Current[0]
    var lastId: nat                // __smp_Idallo
    var threads: map<nat, Thread>  // __smp_Threads
    const waiting: TreapTree       // __smp_ThreadsWaiting
    var slot: map<nat, nat>        // its nodes' data

    ghost function S(): State
      reads this
    {
      State(now, current, slot, threads, lastId)
    }

    ghost predicate Valid()
      reads this, waiting, Nodes(waiting.shape)
    {
      waiting.Valid() && Keys(View(waiting.shape)) == slot.Keys && Inv(S()) && forall k <- slot :: k <= UINT64_MAX
    }

    /** smp_thread_Init: the running environment becomes thread 1. */
    constructor (nice: nat)
      ensures Valid() && fresh(waiting) && S() == Initial(nice)
      ensures now == 1 && current == 1 && lastId == 1 && slot == map[] && threads == map[1 := Thread(nice, 1, 0, Wait(0, 0, 0))]
    {
      now, lastId, current := 1, 1, 1;
      threads := map[1 := Thread(nice, 1, 0, Wait(0, 0, 0))];
      slot := map[];
      waiting := new TreapTree();
    }

    /** The search loop of __smp_Switch: the node of the least key whose thread is runnable. */
    method FirstRunnable() returns (first: TreeNode?)
      requires Valid()
      ensures first == null ==> NoneRunnable(S())
      ensures first != null ==> first in Nodes(waiting.shape) && LeastRunnable(S(), first.key)
    {
      hide Whole, TreapSpec.Treap, View, Keys, Nodes, Inv, Runnable;
      NodeKeys(waiting.shape);
      QueuedThreads(S());
      assert allocated(Nodes(waiting.shape));
      first := waiting.FirstNode();
      while first != null && !Runnable(threads[slot[first.key]], now)
        invariant waiting.Valid()
        invariant first != null ==> first in Nodes(waiting.shape) && first.key in slot && slot[first.key] in threads
        invariant forall k | RunnableAt(S(), k) :: first != null && first.key <= k
        decreases if first == null then {} else KeysFrom(slot, first.key)
      {
        ghost var passed := first.key;
        assert allocated(Nodes(waiting.shape));
        first := waiting.Next(first);
        assert passed in KeysFrom(slot, passed);
      }
    }

    /** tree_InsertNode with a random priority. */
    method TryInsert(key: nat) returns (node: TreeNode, ok: bool)
      requires waiting.Valid()
      modifies waiting, Nodes(waiting.shape)
      ensures waiting.Valid() && Keys(View(waiting.shape)) == old(Keys(View(waiting.shape))) + {key}
      ensures node.key == key && (ok <==> key !in old(Keys(View(waiting.shape)))) && (ok ==> fresh(node))
      ensures Nodes(waiting.shape) == old(Nodes(waiting.shape)) + (if ok then {node} else {})
    {
      hide Whole, TreapSpec.Treap, View, Keys, Nodes;
      var internal: nat := *;
      ghost var t := View(waiting.shape);
      assert allocated(Nodes(waiting.shape));
      InsertKeepsTreap(t, key, internal);
      node, ok := waiting.InsertNode(key, internal);
    }

    /** The re-insertion loop: the first free key from p on. */
    method PutBack(p: nat) returns (ghost key: nat)
      requires waiting.Valid() && Keys(View(waiting.shape)) == slot.Keys && current != 0 && p + |slot| <= UINT64_MAX
      modifies this`slot, waiting, Nodes(waiting.shape)
      ensures waiting.Valid() && Keys(View(waiting.shape)) == slot.Keys
      ensures FirstFree(old(slot), p, key) && slot == old(slot)[key := current] && key <= UINT64_MAX
      ensures Nodes(waiting.shape) >= old(Nodes(waiting.shape)) && fresh(Nodes(waiting.shape) - old(Nodes(waiting.shape)))
    {
      hide Whole, TreapSpec.Treap, View, Keys, Nodes, Inv, Runnable;
      key := p;
      var priority, ok := p, false;
      var node: TreeNode? := null;
      while !ok
        invariant waiting.Valid() && Keys(View(waiting.shape)) == (if ok then slot.Keys + {key} else slot.Keys)
        invariant p <= key && (forall j: nat | p <= j < key :: j in slot)
        invariant if ok then key !in slot && node != null && node.key == key else priority == key
        invariant slot == old(slot)
        invariant Nodes(waiting.shape) >= old(Nodes(waiting.shape)) && fresh(Nodes(waiting.shape) - old(Nodes(waiting.shape)))
        decreases !ok, KeysFrom(slot, priority)
      {
        assert allocated(Nodes(waiting.shape));
        node, ok := TryInsert(priority);
        assert !ok ==> priority in KeysFrom(slot, priority);
        priority := priority + 1;
        if !ok { key := priority; }
      }
      RunLength(slot, p, key);
      slot := slot[node.key := current];
    }

    /** The end of __smp_Switch: the thread of a node is loaded, or the idle loop. */
    method Resume(first: TreeNode?)
      requires waiting.Valid() && Keys(View(waiting.shape)) == slot.Keys
      requires first != null ==> first in Nodes(waiting.shape) && first.key in slot
      modifies this`current, this`slot, waiting, Nodes(waiting.shape)
      ensures waiting.Valid() && Keys(View(waiting.shape)) == slot.Keys
      ensures S() == if first == null then old(S()).(current := 0) else Load(old(S()), first.key)
    {
      hide Whole, TreapSpec.Treap, View, Keys, Nodes, Inv;
      if first == null {
        current := 0;
      } else {
        current := slot[first.key];
        KeysWithout(View(waiting.shape), first.key);
        assert allocated(Nodes(waiting.shape));
        slot := slot - {first.key};
        waiting.Delete(first);
      }
    }

    /** __smp_Switch; false when the current thread goes on. Keys stay within 64 bits. */
    method Switch() returns (switched: bool)
      requires Valid() && (current != 0 ==> Priority(S()) + |slot| <= UINT64_MAX)
      modifies this`current, this`threads, this`slot, waiting, Nodes(waiting.shape)
      ensures Valid() && SwitchStep(old(S()), S())
      ensures !switched ==> S() == old(S()) && exists k :: Stays(S(), k)
      ensures switched && current != 0 ==>
                var t := threads[current]; t.sleepUntil <= now && (t.wait.on == 0 || 0 < t.wait.timeout <= now)
      ensures current == 0 <==>
                forall k <- old(slot) ::
                  var t := old(threads)[old(slot)[k]]; !(t.sleepUntil <= now && (t.wait.on == 0 || 0 < t.wait.timeout <= now))
      ensures current == 0 ==> switched
    {
      hide Whole, TreapSpec.Treap, View, Keys, Nodes, Inv;
      ghost var s := S();
      var t := current;
      CurrentThread(s);
      var priority := UINT64_MAX;
      if t != 0 {
        priority := threads[t].nice + if threads[t].lastTick > now then threads[t].lastTick else now;
      }
      assert allocated(Nodes(waiting.shape));
      var first := FirstRunnable();
      if first != null && first.key > priority {
        assert Stays(s, first.key);
        IdlesIff(s, s);
        return false;
      }
      ghost var key := 0;
      if t != 0 {
        threads := threads[t := threads[t].(lastTick := now)];
        assert allocated(Nodes(waiting.shape));
        key := PutBack(priority);
      }
      assert S() == Requeue(s, key);
      ghost var k := if first == null then 0 else first.key;
      assert allocated(Nodes(waiting.shape));
      Resume(first);
      assert if first == null then SwitchToIdle(s, S(), key) else SwitchTo(s, S(), key, k);
      SwitchKeepsInv(s, S());
      IdlesIff(s, S());
      if first != null { LoadsLeast(s, S(), key, k); }
      return true;
    }

    method Tick()
      requires Valid()
      modifies this`now
      ensures Valid() && TickStep(old(S()), S()) && now == old(now) + 1
    {
      hide Whole, TreapSpec.Treap, View, Keys, Nodes, Inv;
      assert allocated(Nodes(waiting.shape));
      OtherKeepsInv(S(), S().(now := now + 1));
      now := now + 1;
    }

    /** smp_thread_Start, at a free key, without the stack and the register contents. */
    method Start(nice: nat) returns (id: nat)
      requires Valid() && now + nice !in slot && now + nice <= UINT64_MAX
      modifies this`lastId, this`threads, this`slot, waiting, Nodes(waiting.shape)
      ensures Valid() && S() == Started(old(S()), nice) && id == lastId == old(lastId) + 1
      ensures threads == old(threads)[id := Thread(nice, now, 0, Wait(0, 0, 0))] && slot == old(slot)[now + nice := id]
    {
      hide Whole, TreapSpec.Treap, View, Keys, Nodes, Inv;
      StartKeepsInv(S(), nice);
      lastId := lastId + 1;
      id := lastId;
      threads := threads[id := Thread(nice, now, 0, Wait(0, 0, 0))];
      assert allocated(Nodes(waiting.shape));
      var node, ok := TryInsert(threads[id].lastTick + threads[id].nice);
      slot := slot[node.key := id];
    }

    /** smp_thread_Sleep, up to the call of Switch. */
    method Sleep(ticks: nat)
      requires Valid() && current != 0
      modifies this`threads
      ensures Valid() && S() == Slept(old(S()), ticks) && current in old(threads)
      ensures threads == old(threads)[current := old(threads)[current].(sleepUntil := now + ticks)]
    {
      hide Whole, TreapSpec.Treap, View, Keys, Nodes, Inv;
      assert allocated(Nodes(waiting.shape));
      CurrentThread(S());
      assert SleepStep(S(), Slept(S(), ticks));
      OtherKeepsInv(S(), Slept(S(), ticks));
      threads := threads[current := threads[current].(sleepUntil := now + ticks)];
    }

    /** __smp_thread_Cleanup, up to the call of Switch. */
    method Cleanup()
      requires Valid() && current != 0
      modifies this`threads, this`current
      ensures Valid() && CleanupStep(old(S()), S()) && current == 0 && threads == old(threads) - {old(current)}
    {
      hide Whole, TreapSpec.Treap, View, Keys, Nodes, Inv;
      assert allocated(Nodes(waiting.shape));
      OtherKeepsInv(S(), S().(threads := threads - {current}, current := 0));
      threads := threads - {current};
      current := 0;
    }
  }

  lemma KeysWithout(t: Tree, k: nat)
    requires TreapSpec.Treap(t)
    ensures Keys(Delete(t, k)) == Keys(t) - {k}
  {
    DeleteKeys(t, k);
  }

  ghost function KeysFrom(slot: map<nat, nat>, k: nat): set<nat> { set j | j in slot && j >= k }

  lemma {:induction false} RunLength(slot: map<nat, nat>, p: nat, key: nat)
    requires p <= key && forall j: nat | p <= j < key :: j in slot
    ensures key - p <= |slot|
    decreases key - p
  {
    if p < key {
      var rest := slot - {p};
      RunLength(rest, p + 1, key);
      assert slot.Keys == rest.Keys + {p};
      assert |slot.Keys| == |rest.Keys| + 1;
      assert |slot| == |slot.Keys| && |rest| == |rest.Keys|;
    }
  }

  lemma {:induction false} NodeKeys(s: Shape)
    ensures forall n <- Nodes(s) :: n.key in Keys(View(s))
  {
    if s.Bin? {
      NodeKeys(s.left);
      NodeKeys(s.right);
    }
  }
}
