/** The wait record of a thread (smp/internal.h), which mutexes and conditions write and the scheduler
    reads. */
module Waiting {

  /** __smp_Thread_Waiting: the object waited for (0 for none), the data handed over, and the tick at
      which waiting ends (0 for never). */
  datatype Wait = Wait(on: nat, data: nat, timeout: nat)

  /** __smp_Thread_Waiting_IsWaiting. */
  predicate IsWaiting(w: Wait, now: nat) { w.on != 0 && (w.timeout == 0 || w.timeout > now) }
}
