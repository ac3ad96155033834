/** Ownership of the storage lock across start, stop, migration and data commands:
    src/swtpm/mainloop.c, the command switch of src/swtpm/ctrlchannel.c, tpmlib_start of
    src/swtpm/tpmlib.c and the lock functions of src/swtpm/swtpm_nvstore.c and
    src/swtpm/swtpm_nvstore_dir.c. */
module StorageLock {
  import opened Bytes

  const DEFAULT_LOCKING_RETRIES := 300

  /** How the operating system answers one call of Lock_Dir: whether the lock file could
      be opened, and whether the i-th F_SETLK is granted. */
  datatype Attempts = Attempts(opens: bool, grants: nat -> bool)
  {
    ghost predicate GrantedWithin(retries: nat) {
      opens && exists i: nat :: i <= retries && grants(i)
    }
  }

  /** The outcome of SWTPM_NVRAM_Init. */
  datatype NvramInit = NoBackend | PrepareFailed | Prepared

  /** Everything tpmlib_start asks of other code: whether the version and the profile are
      accepted, the NVRAM initialization and the rest of TPMLIB_MainInit (with the backup
      state if need be), and whether the steps behind the lock succeed. */
  datatype Start = Start(accepted: bool, nvram: NvramInit, mainInit: bool, attempts: Attempts, finished: bool)
  {
    /** The start succeeds, given whether the lock is wanted and whether it is held already. */
    ghost predicate Succeeds(wanted: bool, held: bool) {
      && accepted && nvram == Prepared && mainInit && finished
      && (wanted ==> held || attempts.GrantedWithin(0))
    }
  }

  datatype Event =
    | Init(start: Start)
    | Stop
    | Shutdown
    | GetStateblob(saveState: bool, sent: bool)
    | SetStateblob(nvram: NvramInit, attempts: Attempts)
    | LockStorage(retries: nat, attempts: Attempts)
    | Data(attempts: Attempts, received: bool, handledHere: bool)

  // ---- The server as a state machine -----------------------------------------------------

  /** `locking` is whether the user asked for it; `backend` whether g_nvram_backend_ops is
      set; `held` whether lock_fd is open with the file lock ours; `processed` tells for
      each data command that reached TPMLIB_Process whether the lock was held. */
  datatype State = State(locking: bool, backend: bool, held: bool, running: bool, storageLocked: bool,
                         incomingMigration: bool, lockingRetries: nat, terminate: bool, processed: seq<bool>)

  /** mainloop_ensure_locked_storage; without a backend (TPM_RETRY) it is put off. */
  ghost function Ensured(s: State, attempts: Attempts): (State, bool) {
    if s.storageLocked || (s.locking && !s.backend) then (s, true)
    else if !s.locking || s.held || attempts.GrantedWithin(s.lockingRetries) then
      (s.(held := s.held || s.locking, storageLocked := true, incomingMigration := false, lockingRetries := 0), true)
    else (s, false)
  }

  ghost function Started(s: State, start: Start): State {
    var wanted := !s.incomingMigration && s.locking;
    var locks := start.accepted && start.nvram == Prepared && start.mainInit && wanted
                 && start.attempts.GrantedWithin(0);
    s.(backend := s.backend || (start.accepted && start.nvram != NoBackend),
       held := s.held || locks,
       running := start.Succeeds(wanted, s.held),
       storageLocked := !s.incomingMigration)
  }

  ghost function Next(s: State, e: Event): State {
    match e
    case Init(start) => Started(s, start)
    case Stop => s.(running := false)
    case Shutdown => s.(running := false, terminate := true)
    case GetStateblob(saveState, sent) =>
      if s.running && saveState && sent then
        s.(held := s.held && !s.locking, storageLocked := false, lockingRetries := DEFAULT_LOCKING_RETRIES)
      else s
    case SetStateblob(nvram, attempts) =>
      if s.running then s
      else
        var (s', ok) := Ensured(s.(backend := s.backend || nvram != NoBackend), attempts);
        s'.(terminate := !ok)
    case LockStorage(retries, attempts) => Ensured(s.(lockingRetries := retries), attempts).0
    case Data(attempts, received, handledHere) =>
      var (s', ok) := Ensured(s, attempts);
      if ok && received && s.running && !handledHere then s'.(processed := s.processed + [s'.held], terminate := false)
      else s'.(terminate := !ok)
  }

  /** The main loop ends with the first command that terminates it. */
  ghost function Exec(s: State, events: seq<Event>): State
    decreases |events|
  {
    if events == [] || s.terminate then s else Exec(Next(s, events[0]), events[1..])
  }

  /** The key invariant.  The flag storageLocked may be stale, but not in a TPM that runs;
      and a TPM that runs has a backend to lock. */
  predicate Inv(s: State) {
    && (s.running && s.locking ==> s.backend)
    && (s.running && s.storageLocked && s.locking ==> s.held)
    && (s.held ==> s.backend)
  }

  predicate AllHeld(s: State) {
    s.locking ==> forall i :: 0 <= i < |s.processed| ==> s.processed[i]
  }

  /** With a running TPM the answer of ensure_locked_storage is the truth. */
  lemma EnsuredIsTrue(s: State, attempts: Attempts)
    requires Inv(s)
    ensures var (s', ok) := Ensured(s, attempts);
            Inv(s') && (s.running && s.locking ==> ok == s'.held)
  {
  }

  lemma NextKeepsInv(s: State, e: Event)
    requires Inv(s) && AllHeld(s)
    ensures Inv(Next(s, e)) && AllHeld(Next(s, e)) && Next(s, e).locking == s.locking
  {
    if e.Data? {
      EnsuredIsTrue(s, e.attempts);
    }
  }

  /** Every run: with locking enabled, each data command that reaches TPMLIB_Process does
      so with the storage lock held. */
  lemma {:induction false} RunHoldsLock(s: State, events: seq<Event>)
    requires Inv(s) && AllHeld(s)
    ensures Inv(Exec(s, events)) && AllHeld(Exec(s, events))
    decreases |events|
  {
    if events != [] && !s.terminate {
      NextKeepsInv(s, events[0]);
      RunHoldsLock(Next(s, events[0]), events[1..]);
    }
  }

  /** A command is turned away for want of the lock only if the lock could not be had, and
      then it is not processed. */
  lemma RefusedOnlyWithoutLock(s: State, attempts: Attempts, received: bool, handledHere: bool)
    requires Inv(s) && !s.terminate && s.running && s.locking
    ensures var s' := Next(s, Data(attempts, received, handledHere));
            && (s'.terminate <==> !s.held && !attempts.GrantedWithin(s.lockingRetries))
            && (s'.terminate ==> s'.processed == s.processed)
            && (!s'.terminate && received && !handledHere ==> s'.processed == s.processed + [true])
  {
    EnsuredIsTrue(s, attempts);
  }

  /** The same does not hold for CMD_SET_STATEBLOB: a state blob is let through without the
      lock exactly if the flag says locked when it is not, or there is no backend. */
  lemma StateWithoutLockIff(s: State, nvram: NvramInit, attempts: Attempts)
    requires Inv(s) && !s.terminate && !s.running && s.locking
    ensures var s' := Next(s, SetStateblob(nvram, attempts));
            !s'.terminate && !s'.held <==> !s.held && (s.storageLocked || !(s.backend || nvram != NoBackend))
  {
  }

  /** The flag is left behind by a start that could not get the lock. */
  lemma FailedStartLeavesFlag(s: State, start: Start, nvram: NvramInit, attempts: Attempts)
    requires s == State(true, false, false, false, false, false, 0, false, [])
    requires start.nvram == Prepared && start.accepted && start.mainInit && !start.attempts.GrantedWithin(0)
    ensures var s' := Exec(s, [Init(start), SetStateblob(nvram, attempts)]);
            !s'.terminate && !s'.held && s'.storageLocked && s'.backend
  {
    var events := [Init(start), SetStateblob(nvram, attempts)];
    var s1 := Next(s, events[0]);
    assert events[1..] == [events[1]] && [events[1]][1..] == [];
    StateWithoutLockIff(s1, nvram, attempts);
    assert Exec(s1, [events[1]]) == Next(s1, events[1]);
  }

  // ---- The code ------------------------------------------------------------------------------

  class Server {
    const locking: bool
    var backend: bool
    var held: bool
    var running: bool
    var storageLocked: bool
    var incomingMigration: bool
    var lockingRetries: nat
    var terminate: bool
    ghost var processed: seq<bool>

    ghost function View(): State
      reads this
    {
      State(locking, backend, held, running, storageLocked, incomingMigration, lockingRetries, terminate, processed)
    }

    /** The state before the first start; incoming is the --migration incoming option. */
    constructor (locking: bool, incoming: bool)
      ensures View() == State(locking, false, false, false, false, incoming, 0, false, [])
      ensures Inv(View()) && AllHeld(View())
    {
      this.locking, incomingMigration := locking, incoming;
      backend, held, running, storageLocked := false, false, false, false;
      lockingRetries, terminate, processed := 0, false, [];
    }

    /** Lock_Dir tries at most 1 + retries times, and keeps no file open on failure. */
    method LockDir(attempts: Attempts, retries: nat) returns (rc: Rc)
      modifies this`held
      ensures rc == Success <==> old(held) || attempts.GrantedWithin(retries)
      ensures rc == Success || rc == Fail
      ensures held == (rc == Success)
    {
      if held {
        return Success;
      }
      if !attempts.opens {
        return Fail;
      }
      var left, attempt := retries, 0;
      while !attempts.grants(attempt)
        invariant attempt + left == retries && !held
        invariant forall i: nat :: i < attempt ==> !attempts.grants(i)
        decreases left
      {
        if left == 0 {
          return Fail;
        }
        left, attempt := left - 1, attempt + 1;
      }
      held := true;
      rc := Success;
    }

    /** SWTPM_NVRAM_Lock_Storage. */
    method LockNvram(attempts: Attempts, retries: nat) returns (rc: Rc)
      modifies this`held
      ensures !locking ==> rc == Success && held == old(held)
      ensures locking && !backend ==> rc == Retry && held == old(held)
      ensures locking && backend ==>
        && (rc == Success <==> old(held) || attempts.GrantedWithin(retries))
        && (rc == Success || rc == Fail) && held == (rc == Success)
    {
      if !locking {
        return Success;
      }
      if !backend {
        return Retry;
      }
      rc := LockDir(attempts, retries);
    }

    /** mainloop_unlock_nvram; the original dereferences the backend, so there must be one. */
    method UnlockNvram(retries: nat)
      requires locking ==> backend
      modifies this`held, this`storageLocked, this`lockingRetries
      ensures held == (old(held) && !locking) && !storageLocked && lockingRetries == retries
    {
      if locking {
        held := false;
      }
      storageLocked, lockingRetries := false, retries;
    }

    method EnsureLockedStorage(attempts: Attempts) returns (ok: bool)
      requires held ==> backend
      modifies this`held, this`storageLocked, this`lockingRetries, this`incomingMigration
      ensures (View(), ok) == Ensured(old(View()), attempts)
    {
      if storageLocked {
        return true;
      }
      var rc := LockNvram(attempts, lockingRetries);
      if rc == Retry {
        return true;
      }
      if rc != Success {
        return false;
      }
      lockingRetries, storageLocked, incomingMigration := 0, true, false;
      ok := true;
    }

    method NvramInitialize(nvram: NvramInit) returns (rc: Rc)
      modifies this`backend
      ensures backend == (old(backend) || nvram != NoBackend)
      ensures rc == if nvram == Prepared then Success else Fail
    {
      if nvram == NoBackend {
        return Fail;
      }
      backend := true;
      rc := if nvram == Prepared then Success else Fail;
    }

    /** tpmlib_start: a success means there is a backend and, if asked for, the lock. */
    method TpmlibStart(start: Start, lockNvram: bool) returns (rc: Rc)
      modifies this`backend, this`held
      ensures rc == Success <==> start.Succeeds(lockNvram && locking, old(held))
      ensures rc == Success && locking ==> backend && (lockNvram ==> held)
      ensures backend == (old(backend) || (start.accepted && start.nvram != NoBackend))
      ensures held == (old(held) || (start.accepted && start.nvram == Prepared && start.mainInit && lockNvram
                                     && locking && start.attempts.GrantedWithin(0)))
    {
      if !start.accepted {
        return Fail;
      }
      rc := NvramInitialize(start.nvram);
      if rc != Success || !start.mainInit {
        return Fail;
      }
      if lockNvram {
        rc := LockNvram(start.attempts, 0);
        if rc != Success {
          return rc;
        }
      }
      rc := if start.finished then Success else Fail;
    }

    /** CMD_INIT. */
    method Init(start: Start) returns (rc: Rc)
      modifies this`running, this`storageLocked, this`backend, this`held
      ensures View() == Started(old(View()), start) && running == (rc == Success)
    {
      running := false;
      storageLocked := !incomingMigration;
      rc := TpmlibStart(start, storageLocked);
      running := rc == Success;
    }

    /** The data-command path of the main loop. */
    method DataCommand(attempts: Attempts, received: bool, handledHere: bool)
      requires Inv(View())
      modifies this`held, this`storageLocked, this`lockingRetries, this`incomingMigration, this`terminate, this`processed
      ensures View() == Next(old(View()), Data(attempts, received, handledHere))
    {
      var ok := EnsureLockedStorage(attempts);
      terminate := !ok;
      if terminate || !received || !running || handledHere {
        return;
      }
      processed := processed + [held];
    }

    method Handle(e: Event)
      requires Inv(View()) && !terminate
      modifies this
      ensures View() == Next(old(View()), e)
    {
      match e {
        case Init(start) =>
          var rc := Init(start);
        case Stop =>
          running := false;
        case Shutdown =>
          running, terminate := false, true;
        case GetStateblob(saveState, sent) =>
          if running && saveState && sent {
            UnlockNvram(DEFAULT_LOCKING_RETRIES);
          }
        case SetStateblob(nvram, attempts) =>
          if !running {
            var rc := NvramInitialize(nvram);
            var ok := EnsureLockedStorage(attempts);
            terminate := !ok;
          }
        case LockStorage(retries, attempts) =>
          lockingRetries := retries;
          var ok := EnsureLockedStorage(attempts);
        case Data(attempts, received, handledHere) =>
          DataCommand(attempts, received, handledHere);
      }
    }

    /** The main loop is a run of the state machine, and so every data command that
        reaches TPMLIB_Process has the lock held. */
    method Run(events: seq<Event>)
      requires Inv(View()) && AllHeld(View())
      modifies this
      ensures View() == Exec(old(View()), events)
      ensures Inv(View()) && AllHeld(View())
    {
      var i := 0;
      assert events[0..] == events;
      while i < |events| && !terminate
        invariant Inv(View()) && AllHeld(View()) && i <= |events|
        invariant Exec(View(), events[i..]) == Exec(old(View()), events)
      {
        assert events[i..][1..] == events[i + 1..];
        NextKeepsInv(View(), events[i]);
        Handle(events[i]);
        i := i + 1;
      }
    }
  }

  // ---- Two servers on the same storage --------------------------------------------

  /** One command that reached TPMLIB_Process, and who held the lock then. */
  datatype Turn = Turn(bySource: bool, sourceHeld: bool, destinationHeld: bool)
  {
    predicate Exclusive() { sourceHeld == bySource && destinationHeld == !bySource }
  }

  datatype Pair = Pair(source: State, destination: State, turns: seq<Turn>)

  ghost function Denied(a: Attempts): (r: Attempts)
    ensures forall n :: !r.GrantedWithin(n)
  {
    a.(grants := _ => false)
  }

  /** The operating system grants a file lock only while the other process has none. */
  ghost function Contended(e: Event, otherHolds: bool): Event {
    if !otherHolds then e
    else
      match e
      case Init(start) => Init(start.(attempts := Denied(start.attempts)))
      case SetStateblob(nvram, attempts) => SetStateblob(nvram, Denied(attempts))
      case LockStorage(n, attempts) => LockStorage(n, Denied(attempts))
      case Data(attempts, received, handledHere) => Data(Denied(attempts), received, handledHere)
      case _ => e
  }

  /** One command at one of the two ends; a process that ends gives up its lock. */
  ghost function Serve(me: State, e: Event): State {
    if me.terminate then me
    else
      var s := Next(me, e);
      if s.terminate then s.(running := false, held := false) else s
  }

  ghost function PairNext(p: Pair, bySource: bool, e: Event): Pair {
    var me, other := if bySource then p.source else p.destination, if bySource then p.destination else p.source;
    var s := Serve(me, Contended(e, other.held));
    var source, destination := if bySource then s else p.source, if bySource then p.destination else s;
    var turns := if s.processed == me.processed then p.turns
                 else p.turns + [Turn(bySource, source.held, destination.held)];
    Pair(source, destination, turns)
  }

  ghost function PairExec(p: Pair, schedule: seq<(bool, Event)>): Pair
    decreases |schedule|
  {
    if schedule == [] then p
    else PairExec(PairNext(p, schedule[0].0, schedule[0].1), schedule[1..])
  }

  ghost predicate PairInv(p: Pair) {
    && p.source.locking && p.destination.locking && Inv(p.source) && Inv(p.destination)
    && !(p.source.held && p.destination.held)
    && forall i :: 0 <= i < |p.turns| ==> p.turns[i].Exclusive()
  }

  /** The lock attempts a command can make, with the number of retries they have. */
  ghost predicate MayLock(e: Event, retries: nat) {
    match e
    case Init(start) => start.attempts.GrantedWithin(0)
    case SetStateblob(_, attempts) => attempts.GrantedWithin(retries)
    case LockStorage(n, attempts) => attempts.GrantedWithin(n)
    case Data(attempts, _, _) => attempts.GrantedWithin(retries)
    case _ => false
  }

  lemma DeniedMayNotLock(e: Event, retries: nat)
    ensures !MayLock(Contended(e, true), retries)
  {
  }

  /** The lock is acquired only by an attempt, and nothing is processed without it. */
  lemma NextLocks(s: State, e: Event)
    requires Inv(s) && s.locking
    ensures var s' := Next(s, e);
            && Inv(s') && s'.locking
            && (s'.held && !s.held ==> MayLock(e, s.lockingRetries))
            && (s'.processed != s.processed ==> s'.held && !s'.terminate)
  {
    if e.Data? {
      EnsuredIsTrue(s, e.attempts);
    }
  }

  /** An end that serves a command while the other holds the lock does not get it, and
      processes nothing without it. */
  lemma ServeIsSafe(me: State, e: Event, otherHolds: bool)
    requires Inv(me) && me.locking
    ensures var s := Serve(me, Contended(e, otherHolds));
            && Inv(s) && s.locking && (otherHolds && !me.held ==> !s.held)
            && (s.processed != me.processed ==> s.held)
  {
    NextLocks(me, Contended(e, otherHolds));
    DeniedMayNotLock(e, me.lockingRetries);
  }

  /** Migration over shared storage, in any interleaving of the two ends: they never both
      hold the lock, and each command is processed by the end that holds it, alone. */
  lemma {:induction false} PairIsExclusive(p: Pair, schedule: seq<(bool, Event)>)
    requires PairInv(p)
    ensures PairInv(PairExec(p, schedule))
    decreases |schedule|
  {
    if schedule != [] {
      var (bySource, e) := schedule[0];
      if bySource {
        ServeIsSafe(p.source, e, p.destination.held);
      } else {
        ServeIsSafe(p.destination, e, p.source.held);
      }
      PairIsExclusive(PairNext(p, bySource, e), schedule[1..]);
    }
  }
}
