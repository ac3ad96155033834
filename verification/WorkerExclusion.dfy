/** The CUSE front end as threads: any number of request threads that take the file
    operations lock, and the one worker of the thread pool
    (src/swtpm/cuse_tpm.c, src/swtpm/threadpool.c). */
module WorkerExclusion {
  import opened Bytes

  /** What an ioctl does once it has the lock: PTM_STOP, which does not wait at the
      beginning; PTM_SHUTDOWN and PTM_INIT, which do; one that calls into the TPM, which
      waits too; PTM_SET_BUFFERSIZE, which does not wait and either changes the size, if no
      TPM is running, or asks for it; and others that do not wait, such as
      PTM_CANCEL_TPM_CMD. */
  datatype Ioctl = Stop | Shutdown | Init | UseTpm(needsRunning: bool) | SetBufferSize(changes: bool) | NoWait

  datatype Pc =
    | Outside
    | WriteLock                   // ptm_write_cmd wants the lock
    | WriteRunning                // reads tpm_running
    | WriteBusy                   // reads the busy flag
    | WriteChoose                 // the worker or direct processing
    | WriteProcess                // inside TPMLIB_Process or tpmlib_process
    | WriteMark                   // worker_thread_mark_busy
    | WritePush                   // g_thread_pool_push
    | IoctlLock(op: Ioctl)        // ptm_ioctl wants the lock
    | IoctlWait(op: Ioctl)        // worker_thread_wait_done if the TPM is running
    | IoctlBody(op: Ioctl)
    | InTpm                       // inside another entry point of libtpms
    | InBufferSize(changes: bool) // inside TPMLIB_SetBufferSize
    | EndWait(restart: bool)      // tpm_end: worker_thread_end waits if there is a pool
    | EndFree(restart: bool)      // g_thread_pool_free
    | EndShutdown(restart: bool)  // inside TPMLIB_Process, for TPM2_Shutdown
    | EndTerminate(restart: bool) // inside TPMLIB_Terminate
    | EndStopped(restart: bool)   // tpm_running = false
    | StartPool                   // tpm_start: g_thread_pool_new
    | StartMain                   // inside tpmlib_start
    | StartFree                   // g_thread_pool_free after a failure
    | Unlock

  datatype Worker = Idle | Processing | Finishing

  /** What the threads share, apart from the lock.  `pushed`, `completed` and `dropped`
      count commands given to the pool, commands the worker is done with, and commands
      lost when a pool is freed. */
  datatype Shared = Shared(busy: bool, queue: nat, worker: Worker, pool: bool, running: bool,
                           pushed: nat, completed: nat, dropped: nat)

  datatype State = State(threads: seq<Pc>, lock: Option<nat>, shared: Shared)

  /** One atomic step: of a request thread, with an arbitrary choice for whatever the
      model does not determine, or of the worker. */
  datatype Action =
    | Write(t: nat)
    | Call(t: nat, op: Ioctl)
    | Client(t: nat, choice: bool)
    | WorkerTakes
    | WorkerReturns
    | WorkerMarksDone

  /** No request yet, no pool and no TPM. */
  predicate Initial(s: State) {
    && (forall t :: 0 <= t < |s.threads| ==> s.threads[t] == Outside)
    && s.lock == None
    && s.shared == Shared(false, 0, Idle, false, false, 0, 0, 0)
  }

  predicate Critical(pc: Pc) {
    !pc.Outside? && !pc.WriteLock? && !pc.IoctlLock?
  }

  /** Inside TPMLIB_Process, TPMLIB_Terminate, tpmlib_start, a TPMLIB_SetBufferSize that
      changes the size, or an entry point of libtpms that an ioctl calls after waiting for
      the worker. */
  predicate Inside(pc: Pc) {
    pc.WriteProcess? || pc == InBufferSize(true) || pc.InTpm? || pc.EndShutdown? || pc.EndTerminate? || pc.StartMain?
  }

  // ---- Steps -----------------------------------------------------------------------

  function Step(s: State, a: Action): State {
    match a
    case Write(t) =>
      if t < |s.threads| && s.threads[t] == Outside then s.(threads := s.threads[t := WriteLock]) else s
    case Call(t, op) =>
      if t < |s.threads| && s.threads[t] == Outside then s.(threads := s.threads[t := IoctlLock(op)]) else s
    case Client(t, choice) =>
      if t < |s.threads| then ClientStep(s, t, choice) else s
    case _ => s.(shared := WorkerStep(s.shared, a))
  }

  function ClientStep(s: State, t: nat, choice: bool): State
    requires t < |s.threads|
  {
    match s.threads[t]
    case Outside => s
    case WriteLock => if s.lock.None? then State(s.threads[t := WriteRunning], Some(t), s.shared) else s
    case IoctlLock(op) => if s.lock.None? then State(s.threads[t := IoctlWait(op)], Some(t), s.shared) else s
    case Unlock => State(s.threads[t := Outside], None, s.shared)
    case pc =>
      var (pc', shared) := HolderStep(pc, s.shared, choice);
      State(s.threads[t := pc'], s.lock, shared)
  }

  /** The worker takes a command if there is one, returns from TPMLIB_Process, and
      worker_thread_mark_done clears the flag. */
  function WorkerStep(s: Shared, a: Action): Shared {
    if a.WorkerTakes? && s.pool && s.queue > 0 && s.worker == Idle then
      s.(queue := s.queue - 1, worker := Processing)
    else if a.WorkerReturns? && s.worker == Processing then
      s.(worker := Finishing)
    else if a.WorkerMarksDone? && s.worker == Finishing then
      s.(worker := Idle, busy := false, completed := s.completed + 1)
    else s
  }

  /** One step of the thread that holds the lock; waiting is a step that changes nothing. */
  function HolderStep(pc: Pc, s: Shared, choice: bool): (Pc, Shared)
    requires Critical(pc) && pc != Unlock
  {
    match pc
    case WriteRunning => (if s.running && choice then WriteBusy else Unlock, s)
    case WriteBusy => (if s.busy then Unlock else WriteChoose, s)
    case WriteChoose => (if choice then WriteMark else WriteProcess, s)
    case WriteProcess => (Unlock, s)
    case WriteMark => (WritePush, s.(busy := true))
    case WritePush => (Unlock, s.(queue := s.queue + 1, pushed := s.pushed + 1))
    case IoctlWait(op) =>
      (if (op.Shutdown? || op.Init? || op.UseTpm?) && s.running && s.busy then pc else IoctlBody(op), s)
    case IoctlBody(NoWait) => (Unlock, s)
    case IoctlBody(UseTpm(needsRunning)) => (if needsRunning == s.running && choice then InTpm else Unlock, s)
    case IoctlBody(SetBufferSize(changes)) => (if changes && s.running then Unlock else InBufferSize(changes), s)
    case IoctlBody(Init) => (if choice then EndWait(true) else Unlock, s)
    case IoctlBody(_) => (EndWait(false), s)
    case InTpm => (Unlock, s)
    case InBufferSize(_) => (Unlock, s)
    case EndWait(restart) =>
      (if !s.pool then EndShutdown(restart) else if s.busy then pc else EndFree(restart), s)
    case EndFree(restart) => (EndShutdown(restart), FreePool(s))
    case EndShutdown(restart) => (EndTerminate(restart), s)
    case EndTerminate(restart) => (EndStopped(restart), s)
    case EndStopped(restart) => (if restart then StartPool else Unlock, s.(running := false))
    case StartPool => if choice then (StartMain, s.(pool := true)) else (Unlock, s)
    case StartMain => if choice then (Unlock, s.(running := true)) else (StartFree, s)
    case StartFree => (Unlock, FreePool(s))
  }

  /** An immediate shutdown of the pool discards what is still queued. */
  function FreePool(s: Shared): Shared {
    s.(pool := false, queue := 0, dropped := s.dropped + s.queue)
  }

  function Exec(s: State, actions: seq<Action>): State
    decreases |actions|
  {
    if actions == [] then s else Exec(Step(s, actions[0]), actions[1..])
  }

  // ---- Invariant -------------------------------------------------------------------

  /** Commands with the worker or on their way to it. */
  function Jobs(s: Shared): nat {
    s.queue + if s.worker == Idle then 0 else 1
  }

  /** Exactly the thread that owns the lock is in a critical section. */
  predicate LockInv(s: State) {
    && (s.lock.Some? ==> s.lock.value < |s.threads|)
    && forall t {:trigger Critical(s.threads[t])} :: 0 <= t < |s.threads| ==>
         (Critical(s.threads[t]) <==> s.lock == Some(t))
  }

  /** Where the thread that holds the lock is. */
  function Holder(s: State): Pc
    requires LockInv(s)
  {
    if s.lock.Some? then s.threads[s.lock.value] else Outside
  }

  /** Places where the busy flag is known to be clear. */
  predicate Quiet(pc: Pc) {
    || Inside(pc) || pc.WriteChoose? || pc.WriteMark? || pc.EndFree? || pc.EndStopped? || pc.StartPool?
    || pc.StartFree? || (pc.IoctlBody? && pc.op.UseTpm?)
  }

  /** The flag is set exactly while there is a command, from just before the push on. */
  predicate BusyInv(s: Shared, holder: Pc) {
    && Jobs(s) <= 1
    && (s.busy <==> Jobs(s) == 1 || holder.WritePush?)
    && (holder.WritePush? ==> Jobs(s) == 0)
    && (Quiet(holder) ==> !s.busy)
  }

  predicate PoolInv(s: Shared, holder: Pc) {
    && (s.busy ==> s.pool && s.running)
    && (s.running && !s.pool ==> holder.EndShutdown? || holder.EndTerminate? || holder.EndStopped?)
    && (holder.WriteBusy? || holder.WriteChoose? || holder.WriteMark? || holder.WritePush? ==> s.running)
    && (holder.StartMain? ==> s.pool)
    && (holder.StartPool? || holder.StartMain? || holder.StartFree? ==> !s.running)
  }

  predicate CountInv(s: Shared) {
    s.dropped == 0 && s.pushed == s.completed + Jobs(s)
  }

  predicate SharedInv(s: Shared, holder: Pc) {
    BusyInv(s, holder) && PoolInv(s, holder) && CountInv(s)
  }

  predicate Inv(s: State) {
    LockInv(s) && SharedInv(s.shared, Holder(s))
  }

  lemma HolderKeepsInv(pc: Pc, s: Shared, choice: bool)
    requires Critical(pc) && pc != Unlock && SharedInv(s, pc)
    ensures var (pc', s') := HolderStep(pc, s, choice);
            Critical(pc') && SharedInv(s', pc')
  {
  }

  lemma WorkerKeepsInv(s: Shared, holder: Pc, a: Action)
    requires SharedInv(s, holder)
    ensures SharedInv(WorkerStep(s, a), holder)
  {
  }

  lemma ClientKeepsInv(s: State, t: nat, choice: bool)
    requires Inv(s) && t < |s.threads|
    ensures Inv(ClientStep(s, t, choice))
  {
    var pc := s.threads[t];
    assert Critical(pc) <==> s.lock == Some(t);
    if Critical(pc) && pc != Unlock {
      HolderKeepsInv(pc, s.shared, choice);
    }
  }

  lemma StepKeepsInv(s: State, a: Action)
    requires Inv(s)
    ensures Inv(Step(s, a))
  {
    match a
    case Client(t, choice) =>
      if t < |s.threads| {
        ClientKeepsInv(s, t, choice);
      }
    case Write(t) => assert t < |s.threads| ==> (Critical(s.threads[t]) <==> s.lock == Some(t));
    case Call(t, _) => assert t < |s.threads| ==> (Critical(s.threads[t]) <==> s.lock == Some(t));
    case _ => WorkerKeepsInv(s.shared, Holder(s), a);
  }

  lemma {:induction false} RunKeepsInv(s: State, actions: seq<Action>)
    requires Inv(s)
    ensures Inv(Exec(s, actions))
    decreases |actions|
  {
    if actions != [] {
      StepKeepsInv(s, actions[0]);
      RunKeepsInv(Step(s, actions[0]), actions[1..]);
    }
  }

  // ---- Main results ----------------------------------------------------------------

  ghost predicate Reachable(s: State) {
    exists start, actions :: Initial(start) && s == Exec(start, actions)
  }

  lemma InitialInv(s: State)
    requires Initial(s)
    ensures Inv(s)
  {
  }

  lemma ReachableInv(s: State)
    requires Reachable(s)
    ensures Inv(s)
  {
    var start, actions :| Initial(start) && s == Exec(start, actions);
    assert Inv(start) by {
      InitialInv(start);
    }
    RunKeepsInv(start, actions);
  }

  /** What a thread that is inside libtpms, or about to push, knows about the rest. */
  lemma HolderKnows(s: State, t: nat)
    requires Inv(s) && t < |s.threads|
    ensures Inside(s.threads[t]) || s.threads[t].WritePush? ==> s.lock == Some(t) && Jobs(s.shared) == 0
    ensures s.threads[t].WritePush? ==> s.shared.pool
  {
    assert Critical(s.threads[t]) <==> s.lock == Some(t);
  }

  /** In every reachable state at most one thread, worker included, is inside libtpms. */
  lemma MutualExclusion(s: State, t: nat, u: nat)
    requires Reachable(s) && t < |s.threads| && u < |s.threads|
    ensures Inside(s.threads[t]) && Inside(s.threads[u]) ==> t == u
    ensures Inside(s.threads[t]) ==> s.shared.worker != Processing
  {
    ReachableInv(s);
    HolderKnows(s, t);
    HolderKnows(s, u);
  }

  /** While TPMLIB_Terminate runs, every command ever pushed has been completed; and no
      command is ever lost when a pool is freed. */
  lemma TerminateAfterLastCommand(s: State, t: nat)
    requires Reachable(s) && t < |s.threads|
    ensures s.shared.dropped == 0
    ensures s.threads[t].EndTerminate? ==>
              s.shared.pushed == s.shared.completed && s.shared.queue == 0 && s.shared.worker == Idle
  {
    ReachableInv(s);
    HolderKnows(s, t);
  }

  /** A command is pushed only to a pool that exists, and to one with nothing to do. */
  lemma PushFindsIdlePool(s: State, t: nat)
    requires Reachable(s) && t < |s.threads|
    ensures s.threads[t].WritePush? ==> s.shared.pool && s.shared.queue == 0 && s.shared.worker == Idle
  {
    ReachableInv(s);
    HolderKnows(s, t);
  }
}
