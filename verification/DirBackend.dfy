/** The directory backend in backup mode (src/swtpm/swtpm_nvstore_dir.c) together with the
    start procedure of tpmlib_start (src/swtpm/tpmlib.c), one system call per step.

    A run is a list of events: a system call succeeds or fails, a write puts some more
    bytes into the file, the process starts, stores, or crashes.  Reading and access()
    are taken to answer truthfully; a crash is the end of the process, not of the disk. */
module DirBackend {
  import opened Bytes

  /** The permanent state file and its two companions (.bak and .tmp). */
  datatype File = Perm | Bak | Tmp

  type Disk = map<File, Bytes>

  /** rename(2): the target is replaced, and a missing source is an error. */
  function Rename(disk: Disk, from: File, to: File): (r: (Disk, bool)) {
    if from in disk then ((disk - {from})[to := disk[from]], true) else (disk, false)
  }

  /** Where the process is.  `retry` marks the second TPMLIB_MainInit, `undo` the call of
      RestoreBackup that reverts the first one. */
  datatype Pc =
    | Down
    | Failed
    | Ready
    | PreStart(retry: bool)
    | Loading(retry: bool)
    | MoveAway(undo: bool)                // rename @1: Perm to Tmp
    | Restore(undo: bool, moved: bool)    // rename @2: Bak to Perm
    | RevertMove                          // revert @1 after @2 failed
    | KeepOriginal(undo: bool)            // Tmp to Bak
    | RevertRestore                       // revert @2
    | RevertBoth                          // revert @1
    | StoreMove(data: Bytes)              // Perm to Bak
    | StoreOpen(data: Bytes)
    | StoreWrite(data: Bytes, written: nat)
    | StoreSync(data: Bytes)              // fsync and close
    | StoreUnlink(data: Bytes)
    | StoreRevert(data: Bytes, removed: bool)  // Bak to Perm

  datatype Event = Succeeds | Fails | Wrote(count: nat) | Crash | Start | Store(data: Bytes)

  /** Beside disk and program counter, what the run has done so far: `last` is the latest
      store that completed and `begun` are the stores begun since; `kept` is what was
      authoritative when the latest of them began, `trying` is that latest one. */
  datatype State = State(disk: Disk, pc: Pc, last: Bytes, begun: set<Bytes>, kept: Bytes, trying: Option<Bytes>)

  /** RestoreBackup_Dir up to its first rename. */
  function EnterRestoreBackup(disk: Disk, undo: bool): Pc {
    if Bak !in disk then Failed
    else if Perm in disk then MoveAway(undo)
    else Restore(undo, false)
  }

  /** RestoreBackup_Dir returned success: try to initialize again, or give up. */
  function AfterRestoreBackup(undo: bool): Pc {
    if undo then Failed else PreStart(true)
  }

  function RenameStep(s: State, e: Event, from: File, to: File, ok: Pc, fail: Pc): State {
    match e
    case Succeeds =>
      var (disk, done) := Rename(s.disk, from, to);
      s.(disk := disk, pc := if done then ok else fail)
    case Fails => s.(pc := fail)
    case _ => s
  }

  function Step(loads: Bytes -> bool, s: State, e: Event): State {
    if e.Crash? then s.(pc := Down)
    else
      match s.pc
      case Down => if e.Start? then s.(pc := PreStart(false)) else s
      case Failed => s
      case Ready => if e.Store? then BeginStore(loads, s, e.data) else s
      case PreStart(retry) =>
        if Perm !in s.disk && Bak in s.disk
        then RenameStep(s, e, Bak, Perm, Loading(retry), EnterRestoreBackup(s.disk, retry))
        else s.(pc := Loading(retry))
      case Loading(retry) =>
        // a missing file (TPM_RETRY) makes libtpms manufacture a new TPM
        if Perm !in s.disk || loads(s.disk[Perm]) then s.(pc := Ready)
        else s.(pc := EnterRestoreBackup(s.disk, retry))
      case MoveAway(undo) => RenameStep(s, e, Perm, Tmp, Restore(undo, true), Failed)
      case Restore(undo, moved) =>
        RenameStep(s, e, Bak, Perm,
                   if moved then KeepOriginal(undo) else AfterRestoreBackup(undo),
                   if moved then RevertMove else Failed)
      case RevertMove => RenameStep(s, e, Tmp, Perm, Failed, Failed)
      case KeepOriginal(undo) => RenameStep(s, e, Tmp, Bak, AfterRestoreBackup(undo), RevertRestore)
      case RevertRestore => RenameStep(s, e, Perm, Bak, RevertBoth, Failed)
      case RevertBoth => RenameStep(s, e, Tmp, Perm, Failed, Failed)
      case _ => StoreStep(s, e)
  }

  /** The authoritative content: the permanent file if it loads, else the backup. */
  function Authoritative(loads: Bytes -> bool, disk: Disk): Option<Bytes> {
    if Perm in disk && loads(disk[Perm]) then Some(disk[Perm])
    else if Bak in disk && loads(disk[Bak]) then Some(disk[Bak])
    else None
  }

  /** StoreData_Dir up to its first system call that changes the disk. */
  function BeginStore(loads: Bytes -> bool, s: State, data: Bytes): State {
    var kept := Authoritative(loads, s.disk);
    s.(pc := if Perm in s.disk then StoreMove(data) else StoreOpen(data),
       begun := s.begun + {data},
       kept := if kept.Some? then kept.value else s.kept,
       trying := Some(data))
  }

  /** The rest of StoreData_Dir with file_write; `renamed` of the original is true
      whenever the write is reached, so a failed write always tries to revert. */
  function StoreStep(s: State, e: Event): State {
    match s.pc
    case StoreMove(data) => RenameStep(s, e, Perm, Bak, StoreOpen(data), Ready)
    case StoreOpen(data) =>
      if e.Succeeds? then s.(disk := s.disk[Perm := []], pc := if data == [] then StoreSync(data) else StoreWrite(data, 0))
      else if e.Fails? then s.(pc := StoreRevert(data, true))
      else s
    case StoreWrite(data, k) =>
      if e.Wrote? && 0 < e.count && k + e.count <= |data| then
        var k' := k + e.count;
        s.(disk := s.disk[Perm := data[..k']],
           pc := if k' == |data| then StoreSync(data) else StoreWrite(data, k'))
      else if e.Fails? then s.(pc := StoreUnlink(data))
      else s
    case StoreSync(data) =>
      if e.Succeeds? then s.(pc := Ready, last := data, begun := {}, kept := data, trying := None)
      else if e.Fails? then s.(pc := StoreUnlink(data))
      else s
    case StoreUnlink(data) =>
      if e.Succeeds? then s.(disk := s.disk - {Perm}, pc := StoreRevert(data, true))
      else if e.Fails? then s.(pc := StoreRevert(data, false))
      else s
    case StoreRevert(data, removed) => RenameStep(s, e, Bak, Perm, Ready, Ready)
    case _ => s
  }

  function Exec(loads: Bytes -> bool, s: State, events: seq<Event>): State
    decreases |events|
  {
    if events == [] then s else Exec(loads, Step(loads, s, events[0]), events[1..])
  }

  // ---- The invariant -----------------------------------------------------------------

  /** What the store layer hands down: loads in full, and no strict prefix of it loads. */
  ghost predicate Storable(loads: Bytes -> bool, data: Bytes) {
    loads(data) && forall k :: 0 <= k < |data| ==> !loads(data[..k])
  }

  /** A complete content that a restart may end with. */
  ghost predicate Acceptable(loads: Bytes -> bool, s: State, content: Bytes) {
    loads(content) && (content == s.kept || s.trying == Some(content))
  }

  ghost predicate Good(loads: Bytes -> bool, s: State, f: File) {
    f in s.disk && Acceptable(loads, s, s.disk[f])
  }

  ghost predicate Torn(loads: Bytes -> bool, s: State, f: File) {
    f in s.disk && !loads(s.disk[f])
  }

  /** The permanent file is a prefix of what is being written. */
  ghost predicate Partial(s: State, data: Bytes) {
    Perm in s.disk && s.disk[Perm] <= data
  }

  /** A store may begin: there is no permanent file, or it loads. */
  predicate StoreIsSafe(loads: Bytes -> bool, disk: Disk) {
    Perm !in disk || loads(disk[Perm])
  }

  ghost predicate Recoverable(loads: Bytes -> bool, s: State) {
    && (Good(loads, s, Perm) || ((Torn(loads, s, Perm) || Perm !in s.disk) && Good(loads, s, Bak)))
    && (s.trying.Some? ==> Storable(loads, s.trying.value) && s.trying.value in s.begun)
    && (s.kept == s.last || s.kept in s.begun)
  }

  ghost predicate Inv(loads: Bytes -> bool, s: State) {
    && Recoverable(loads, s)
    && match s.pc
       case Down => true
       case Failed => true
       case Ready => true
       case PreStart(retry) => retry ==> Good(loads, s, Perm)
       case Loading(retry) => Perm in s.disk && (retry ==> Good(loads, s, Perm))
       case MoveAway(undo) => !undo && Torn(loads, s, Perm)
       case Restore(undo, moved) => !undo && Perm !in s.disk && (moved ==> Torn(loads, s, Tmp))
       case RevertMove => Perm !in s.disk && Torn(loads, s, Tmp)
       case KeepOriginal(undo) => !undo && Good(loads, s, Perm) && Torn(loads, s, Tmp)
       case RevertRestore => Good(loads, s, Perm) && Torn(loads, s, Tmp)
       case RevertBoth => Perm !in s.disk && Torn(loads, s, Tmp)
       case StoreMove(data) => s.trying == Some(data) && Good(loads, s, Perm)
       case StoreOpen(data) => s.trying == Some(data) && Perm !in s.disk
       case StoreWrite(data, k) => s.trying == Some(data) && k < |data| && Perm in s.disk && s.disk[Perm] == data[..k]
                                   && Good(loads, s, Bak)
       case StoreSync(data) => s.trying == Some(data) && Perm in s.disk && s.disk[Perm] == data && Good(loads, s, Bak)
       case StoreUnlink(data) => s.trying == Some(data) && Partial(s, data) && Good(loads, s, Bak)
       case StoreRevert(data, removed) =>
         s.trying == Some(data) && Good(loads, s, Bak) && (if removed then Perm !in s.disk else Partial(s, data))
  }

  /** The one step that the protocol does not survive: a store that begins while the
      permanent file is torn, and moves it over the backup. */
  predicate OverwritesBackup(loads: Bytes -> bool, s: State, e: Event) {
    s.pc == Ready && e.Store? && !StoreIsSafe(loads, s.disk)
  }

  predicate Tolerated(loads: Bytes -> bool, s: State, events: seq<Event>)
    decreases |events|
  {
    || events == []
    || (!OverwritesBackup(loads, s, events[0]) && Tolerated(loads, Step(loads, s, events[0]), events[1..]))
  }

  ghost predicate Stores(loads: Bytes -> bool, events: seq<Event>) {
    forall e :: e in events && e.Store? ==> Storable(loads, e.data)
  }

  /** A prefix of a storable content is torn, or it is all of it. */
  lemma PrefixIsTorn(loads: Bytes -> bool, data: Bytes, p: Bytes)
    requires Storable(loads, data) && p <= data
    ensures loads(p) <==> p == data
  {
    assert p == data[..|p|];
    assert |p| == |data| ==> p == data;
  }

  lemma StepKeepsInv(loads: Bytes -> bool, s: State, e: Event)
    requires Inv(loads, s) && !OverwritesBackup(loads, s, e)
    requires e.Store? ==> Storable(loads, e.data)
    ensures Inv(loads, Step(loads, s, e))
  {
    if e.Crash? {
    } else if s.pc.StoreOpen? || s.pc.StoreSync? || s.pc.StoreUnlink? || s.pc.StoreRevert? || s.pc.StoreMove? {
      StoreKeepsInv(loads, s, e);
    } else if s.pc.StoreWrite? {
      WriteKeepsInv(loads, s, e);
    } else {
      StartKeepsInv(loads, s, e);
    }
  }

  lemma StartKeepsInv(loads: Bytes -> bool, s: State, e: Event)
    requires Inv(loads, s) && !e.Crash? && (e.Store? ==> Storable(loads, e.data))
    requires !OverwritesBackup(loads, s, e)
    requires s.pc.Down? || s.pc.Failed? || s.pc.Ready? || s.pc.PreStart? || s.pc.Loading? || s.pc.MoveAway?
             || s.pc.Restore? || s.pc.RevertMove? || s.pc.KeepOriginal? || s.pc.RevertRestore? || s.pc.RevertBoth?
    ensures Inv(loads, Step(loads, s, e))
  {
  }

  lemma StoreKeepsInv(loads: Bytes -> bool, s: State, e: Event)
    requires Inv(loads, s) && !e.Crash? && !OverwritesBackup(loads, s, e)
    requires s.pc.StoreOpen? || s.pc.StoreSync? || s.pc.StoreUnlink? || s.pc.StoreRevert? || s.pc.StoreMove?
    ensures Inv(loads, Step(loads, s, e))
  {
    PrefixIsTorn(loads, s.pc.data, []);
    if Perm in s.disk && s.disk[Perm] <= s.pc.data {
      PrefixIsTorn(loads, s.pc.data, s.disk[Perm]);
    }
  }

  lemma WriteKeepsInv(loads: Bytes -> bool, s: State, e: Event)
    requires Inv(loads, s) && s.pc.StoreWrite? && !e.Crash?
    ensures Inv(loads, Step(loads, s, e))
  {
    var data, k := s.pc.data, s.pc.written;
    if e.Wrote? && 0 < e.count && k + e.count <= |data| {
      PrefixIsTorn(loads, data, data[..k + e.count]);
      assert data[..|data|] == data;
    }
  }

  /** Safety of every run: whatever calls fail and wherever the process crashes, as long as
      no store begins on a torn permanent file, the authoritative content stays complete and
      acceptable in every state. */
  lemma {:induction false} RunKeepsInv(loads: Bytes -> bool, s: State, events: seq<Event>)
    requires Inv(loads, s) && Tolerated(loads, s, events) && Stores(loads, events)
    ensures Inv(loads, Exec(loads, s, events))
    decreases |events|
  {
    if events != [] {
      assert events[0] in events;
      StepKeepsInv(loads, s, events[0]);
      assert forall e :: e in events[1..] ==> e in events;
      RunKeepsInv(loads, Step(loads, s, events[0]), events[1..]);
    }
  }

  // ---- Restart -------------------------------------------------------------------------

  function Successes(n: nat): seq<Event> {
    if n == 0 then [] else [Succeeds] + Successes(n - 1)
  }

  lemma ExecOk(loads: Bytes -> bool, s: State, n: nat)
    requires n > 0
    ensures Exec(loads, s, Successes(n)) == Exec(loads, Step(loads, s, Succeeds), Successes(n - 1))
  {
    assert Successes(n)[1..] == Successes(n - 1);
  }

  lemma {:induction false} ReadyStays(loads: Bytes -> bool, s: State, n: nat)
    requires s.pc == Ready
    ensures Exec(loads, s, Successes(n)) == s
  {
    if n > 0 {
      ExecOk(loads, s, n);
      ReadyStays(loads, s, n - 1);
    }
  }

  /** An undisturbed start from a state whose permanent file loads just loads it. */
  lemma StartWithGoodFile(loads: Bytes -> bool, s: State, retry: bool, n: nat)
    requires s.pc == PreStart(retry) && Perm in s.disk && loads(s.disk[Perm]) && n >= 2
    ensures Exec(loads, s, Successes(n)) == s.(pc := Ready)
  {
    ExecOk(loads, s, n);
    ExecOk(loads, s.(pc := Loading(retry)), n - 1);
    ReadyStays(loads, s.(pc := Ready), n - 2);
  }

  /** The disk with the two files exchanged, and a TPM about to initialize again. */
  function Exchanged(s: State): State
    requires Perm in s.disk && Bak in s.disk
  {
    s.(pc := PreStart(true), disk := map[Perm := s.disk[Bak], Bak := s.disk[Perm]])
  }

  /** An undisturbed start from a state whose permanent file is torn swaps it with the
      backup and initializes again. */
  lemma StartWithTornFile(loads: Bytes -> bool, s: State, n: nat)
    requires s.pc == PreStart(false) && Torn(loads, s, Perm) && Bak in s.disk && loads(s.disk[Bak]) && n >= 7
    ensures Exec(loads, s, Successes(n)) == Exchanged(s).(pc := Ready)
  {
    TornStartExchanges(loads, s, n);
    StartWithGoodFile(loads, Exchanged(s), true, n - 5);
  }

  lemma TornStartExchanges(loads: Bytes -> bool, s: State, n: nat)
    requires s.pc == PreStart(false) && Torn(loads, s, Perm) && Bak in s.disk && n >= 5
    ensures Exec(loads, s, Successes(n)) == Exec(loads, Exchanged(s), Successes(n - 5))
  {
    TornFileIsDetected(loads, s, n);
    var s1 := s.(pc := MoveAway(false));
    SwapsFiles(loads, s1, n - 2);
    assert s1.(pc := PreStart(true), disk := map[Perm := s.disk[Bak], Bak := s.disk[Perm]]) == Exchanged(s);
  }

  lemma TornFileIsDetected(loads: Bytes -> bool, s: State, n: nat)
    requires s.pc == PreStart(false) && Torn(loads, s, Perm) && Bak in s.disk && n >= 2
    ensures Exec(loads, s, Successes(n)) == Exec(loads, s.(pc := MoveAway(false)), Successes(n - 2))
  {
    ExecOk(loads, s, n);
    ExecOk(loads, s.(pc := Loading(false)), n - 1);
  }

  /** RestoreBackup_Dir, undisturbed, exchanges the two files. */
  lemma SwapsFiles(loads: Bytes -> bool, s: State, n: nat)
    requires s.pc.MoveAway? && Perm in s.disk && Bak in s.disk && n >= 3
    ensures Exec(loads, s, Successes(n)) ==
            Exec(loads, s.(pc := AfterRestoreBackup(s.pc.undo), disk := map[Perm := s.disk[Bak], Bak := s.disk[Perm]]),
                 Successes(n - 3))
  {
    ExecOk(loads, s, n);
    var s1 := Step(loads, s, Succeeds);
    ExecOk(loads, s1, n - 1);
    var s2 := Step(loads, s1, Succeeds);
    ExecOk(loads, s2, n - 2);
    SameDisk(Step(loads, s2, Succeeds).disk, map[Perm := s.disk[Bak], Bak := s.disk[Perm]]);
  }

  /** There are only three files to compare. */
  lemma SameDisk(a: Disk, b: Disk)
    requires Perm in a <==> Perm in b
    requires Bak in a <==> Bak in b
    requires Tmp in a <==> Tmp in b
    requires Perm in a ==> a[Perm] == b[Perm]
    requires Bak in a ==> a[Bak] == b[Bak]
    requires Tmp in a ==> a[Tmp] == b[Tmp]
    ensures a == b
  {
    forall f: File
      ensures f in a <==> f in b
      ensures f in a ==> a[f] == b[f]
    {
      match f
      case Perm =>
      case Bak =>
      case Tmp =>
    }
  }

  /** From every state that a run can crash in, an undisturbed restart ends with the TPM
      running on a permanent file that holds the authoritative content in full. */
  lemma RestartRecovers(loads: Bytes -> bool, s: State, n: nat)
    requires Inv(loads, s) && s.pc == Down && n >= 7
    ensures Authoritative(loads, s.disk).Some?
    ensures var r := Exec(loads, s, [Start] + Successes(n));
            r.pc == Ready && Perm in r.disk && Some(r.disk[Perm]) == Authoritative(loads, s.disk)
  {
    var s1 := s.(pc := PreStart(false));
    assert ([Start] + Successes(n))[1..] == Successes(n);
    assert Exec(loads, s, [Start] + Successes(n)) == Exec(loads, s1, Successes(n));
    if Perm !in s.disk {
      StartWithoutFile(loads, s1, n);
    } else if loads(s.disk[Perm]) {
      StartWithGoodFile(loads, s1, false, n);
    } else {
      StartWithTornFile(loads, s1, n);
    }
  }

  /** An undisturbed start without a permanent file begins by renaming the backup. */
  lemma StartWithoutFile(loads: Bytes -> bool, s: State, n: nat)
    requires s.pc == PreStart(false) && Perm !in s.disk && Bak in s.disk && loads(s.disk[Bak]) && n >= 2
    ensures var r := Exec(loads, s, Successes(n));
            r.pc == Ready && Perm in r.disk && r.disk[Perm] == s.disk[Bak]
  {
    var s1 := s.(disk := Rename(s.disk, Bak, Perm).0, pc := Loading(false));
    assert Step(loads, s, Succeeds) == s1;
    assert Step(loads, s1, Succeeds) == s1.(pc := Ready);
    ExecOk(loads, s, n);
    ExecOk(loads, s1, n - 1);
    ReadyStays(loads, s1.(pc := Ready), n - 2);
  }

  /** The state of a TPM that was running on a complete permanent file. */
  ghost predicate Initial(loads: Bytes -> bool, s: State) {
    && s.pc == Ready && Perm in s.disk && loads(s.disk[Perm])
    && s.last == s.kept == s.disk[Perm] && s.begun == {} && s.trying == None
  }

  /** The crash-recovery theorem: run anything, crash anywhere, restart; the permanent file
      then holds in full the last completed store or one that was begun after it. */
  lemma CrashRecovery(loads: Bytes -> bool, s0: State, events: seq<Event>, n: nat)
    requires n >= 7 && Inv(loads, s0) && Tolerated(loads, s0, events) && Stores(loads, events)
    ensures var s := Exec(loads, s0, events);
            var r := Exec(loads, Step(loads, s, Crash), [Start] + Successes(n));
            && r.pc == Ready && Perm in r.disk && loads(r.disk[Perm])
            && (r.disk[Perm] == s.last || r.disk[Perm] in s.begun)
            && (r.disk[Perm] == s.kept || s.trying == Some(r.disk[Perm]))
  {
    RunKeepsInv(loads, s0, events);
    var s := Exec(loads, s0, events);
    StepKeepsInv(loads, s, Crash);
    RestartRecovers(loads, Step(loads, s, Crash), n);
  }

  // ---- What the protocol does not survive -------------------------------------------------

  /** Equal but for what the run has done so far. */
  predicate SameMachine(s: State, t: State) {
    s.disk == t.disk && s.pc == t.pc
  }

  /** Disk and program counter do not depend on the history. */
  lemma {:induction false} HistoryIsIrrelevant(loads: Bytes -> bool, s: State, t: State, events: seq<Event>)
    requires SameMachine(s, t)
    ensures SameMachine(Exec(loads, s, events), Exec(loads, t, events))
    ensures Tolerated(loads, s, events) <==> Tolerated(loads, t, events)
    decreases |events|
  {
    if events != [] {
      StepIgnoresHistory(loads, s, t, events[0]);
      HistoryIsIrrelevant(loads, Step(loads, s, events[0]), Step(loads, t, events[0]), events[1..]);
    }
  }

  lemma StepIgnoresHistory(loads: Bytes -> bool, s: State, t: State, e: Event)
    requires SameMachine(s, t)
    ensures SameMachine(Step(loads, s, e), Step(loads, t, e))
  {
  }

  /** Whatever happens after the store has begun, the disk has a complete content. */
  ghost predicate KeepsContent(loads: Bytes -> bool, s: State, data: Bytes) {
    forall events: seq<Event> {:trigger Exec(loads, Step(loads, s, Store(data)), events)} ::
      Tolerated(loads, Step(loads, s, Store(data)), events) && Stores(loads, events)
      ==> Authoritative(loads, Exec(loads, Step(loads, s, Store(data)), events).disk).Some?
  }

  /** From every state of a running TPM, a store keeps some complete content through every
      sequence of failures and crashes if and only if there is one to begin with and the
      permanent file is not torn. */
  lemma StoreKeepsContentIff(loads: Bytes -> bool, s: State, data: Bytes)
    requires s.pc == Ready && Storable(loads, data)
    ensures KeepsContent(loads, s, data) <==> StoreIsSafe(loads, s.disk) && Authoritative(loads, s.disk).Some?
  {
    var s1 := Step(loads, s, Store(data));
    if !StoreIsSafe(loads, s.disk) {
      var events := [Succeeds];
      assert events[1..] == [];
      assert Exec(loads, s1, events) == Step(loads, s1, Succeeds);
      assert Tolerated(loads, s1, events) && Stores(loads, events);
      assert Authoritative(loads, Exec(loads, s1, events).disk).None?;
    } else if Authoritative(loads, s.disk).None? {
      assert Tolerated(loads, s1, []) && Stores(loads, []);
      assert Authoritative(loads, Exec(loads, s1, []).disk).None?;
    } else {
      SafeStoreKeepsContent(loads, s, data);
    }
  }

  lemma SafeStoreKeepsContent(loads: Bytes -> bool, s: State, data: Bytes)
    requires s.pc == Ready && Storable(loads, data)
    requires StoreIsSafe(loads, s.disk) && Authoritative(loads, s.disk).Some?
    ensures KeepsContent(loads, s, data)
  {
    var content := Authoritative(loads, s.disk).value;
    var t := State(s.disk, Ready, content, {}, content, None);
    var s1, t1 := Step(loads, s, Store(data)), Step(loads, t, Store(data));
    StepKeepsInv(loads, t, Store(data));
    StepIgnoresHistory(loads, s, t, Store(data));
    forall events: seq<Event> | Tolerated(loads, s1, events) && Stores(loads, events)
      ensures Authoritative(loads, Exec(loads, s1, events).disk).Some?
    {
      HistoryIsIrrelevant(loads, s1, t1, events);
      RunKeepsInv(loads, t1, events);
    }
  }

  /** A torn permanent file does arise: a write fails, and then so do both the unlink and
      the reverting rename.  The next store moves the torn file over the only complete
      copy. */
  lemma TornFileOverwritesBackup(loads: Bytes -> bool, s: State, data: Bytes, data': Bytes)
    requires Initial(loads, s) && Storable(loads, data) && Storable(loads, data') && data != []
    ensures var events := [Store(data), Succeeds, Succeeds, Fails, Fails, Fails] + [Store(data'), Succeeds];
            Authoritative(loads, Exec(loads, s, events).disk).None?
  {
    var first, second := [Store(data), Succeeds, Succeeds, Fails, Fails, Fails], [Store(data'), Succeeds];
    TornFileIsLeft(loads, s, data);
    var s6 := Exec(loads, s, first);
    ExecAppend(loads, s, first, second);
    var s7 := Step(loads, s6, Store(data'));
    assert second[1..] == [Succeeds] && [Succeeds][1..] == [];
    assert Exec(loads, s6, second) == Step(loads, s7, Succeeds);
  }

  lemma TornFileIsLeft(loads: Bytes -> bool, s: State, data: Bytes)
    requires Initial(loads, s) && Storable(loads, data) && data != []
    ensures var r := Exec(loads, s, [Store(data), Succeeds, Succeeds, Fails, Fails, Fails]);
            r.pc == Ready && Torn(loads, r, Perm) && Holds(r.disk, Bak, s.last)
  {
    var first, second := [Store(data), Succeeds, Succeeds], [Fails, Fails, Fails];
    var midway := Exec(loads, s, first);
    assert midway.pc == StoreWrite(data, 0) && Torn(loads, midway, Perm) && Holds(midway.disk, Bak, s.last) by {
      PrefixIsTorn(loads, data, []);
      ExecThree(loads, s, Store(data), Succeeds, Succeeds);
    }
    WriteFailsBadly(loads, midway);
    ExecAppend(loads, s, first, second);
    assert first + second == [Store(data), Succeeds, Succeeds, Fails, Fails, Fails];
  }

  /** A failing write, unlink and rename leave the disk as it was. */
  lemma WriteFailsBadly(loads: Bytes -> bool, s: State)
    requires s.pc.StoreWrite?
    ensures Exec(loads, s, [Fails, Fails, Fails]) == s.(pc := Ready)
  {
    var s1, s2 := s.(pc := StoreUnlink(s.pc.data)), s.(pc := StoreRevert(s.pc.data, false));
    assert Step(loads, s, Fails) == s1;
    assert Step(loads, s1, Fails) == s2;
    assert Step(loads, s2, Fails) == s.(pc := Ready);
    ExecThree(loads, s, Fails, Fails, Fails);
  }

  lemma {:induction false} ExecAppend(loads: Bytes -> bool, s: State, a: seq<Event>, b: seq<Event>)
    ensures Exec(loads, s, a + b) == Exec(loads, Exec(loads, s, a), b)
    decreases |a|
  {
    if a == [] {
      assert a + b == b;
    } else {
      assert (a + b)[1..] == a[1..] + b;
      ExecAppend(loads, Step(loads, s, a[0]), a[1..], b);
    }
  }

  lemma ExecThree(loads: Bytes -> bool, s: State, a: Event, b: Event, c: Event)
    ensures Exec(loads, s, [a, b, c]) == Step(loads, Step(loads, Step(loads, s, a), b), c)
  {
    var s1 := Step(loads, s, a);
    assert [a, b, c][1..] == [b, c] && [b, c][1..] == [c] && [c][1..] == [];
    assert Exec(loads, s1, [b, c]) == Exec(loads, Step(loads, s1, b), [c]);
  }

  /** The very first store has nothing to fall back to: torn by a crash, it keeps the TPM
      from starting however often it is tried. */
  lemma FirstStoreIsUnprotected(loads: Bytes -> bool, s: State, data: Bytes, n: nat)
    requires s.pc == Ready && s.disk == map[] && Storable(loads, data) && data != [] && n >= 2
    ensures var torn := Step(loads, Step(loads, Step(loads, s, Store(data)), Succeeds), Crash);
            && Authoritative(loads, torn.disk).None?
            && Exec(loads, torn, [Start] + Successes(n)).pc == Failed
  {
    PrefixIsTorn(loads, data, []);
    var torn := Step(loads, Step(loads, Step(loads, s, Store(data)), Succeeds), Crash);
    assert ([Start] + Successes(n))[1..] == Successes(n);
    var s1 := Step(loads, torn, Start);
    ExecOk(loads, s1, n);
    var s2 := Step(loads, s1, Succeeds);
    ExecOk(loads, s2, n - 1);
    FailedStays(loads, Step(loads, s2, Succeeds), n - 2);
  }

  lemma {:induction false} FailedStays(loads: Bytes -> bool, s: State, n: nat)
    requires s.pc == Failed
    ensures Exec(loads, s, Successes(n)) == s
  {
    if n > 0 {
      ExecOk(loads, s, n);
      FailedStays(loads, s, n - 1);
    }
  }

  // ---- RestoreBackup on its own ------------------------------------------------------------

  predicate InRestoreBackup(pc: Pc) {
    pc.MoveAway? || pc.Restore? || pc.RevertMove? || pc.KeepOriginal? || pc.RevertRestore? || pc.RevertBoth?
  }

  /** A second undisturbed call undoes the first, whatever a crash left under the third
      name. */
  lemma RestoreBackupIsInvolution(loads: Bytes -> bool, s: State)
    requires s.pc == EnterRestoreBackup(s.disk, false) && Perm in s.disk && Bak in s.disk
    ensures var once := Exec(loads, s, Successes(3));
            && once.pc == AfterRestoreBackup(false)
            && once.disk == map[Perm := s.disk[Bak], Bak := s.disk[Perm]]
            && var twice := Exec(loads, once.(pc := EnterRestoreBackup(once.disk, true)), Successes(3));
               twice.pc == AfterRestoreBackup(true) && twice.disk == map[Perm := s.disk[Perm], Bak := s.disk[Bak]]
  {
    SwapsFiles(loads, s, 3);
    var once := Exec(loads, s, Successes(3));
    SwapsFiles(loads, once.(pc := MoveAway(true)), 3);
  }

  /** If one of the three renames fails and the reverting ones succeed, the call fails with
      both files as they were. */
  lemma FailedRestoreReverts(loads: Bytes -> bool, s: State, events: seq<Event>)
    requires s.pc.MoveAway? && Perm in s.disk && Bak in s.disk
    requires events in {[Fails], [Succeeds, Fails, Succeeds], [Succeeds, Succeeds, Fails, Succeeds, Succeeds]}
    ensures var r := Exec(loads, s, events);
            && r.pc == Failed
            && Holds(r.disk, Perm, s.disk[Perm]) && Holds(r.disk, Bak, s.disk[Bak])
  {
    if events == [Fails] {
      assert events[1..] == [];
    } else if events == [Succeeds, Fails, Succeeds] {
      ExecThree(loads, s, Succeeds, Fails, Succeeds);
    } else {
      LastRenameReverts(loads, s);
    }
  }

  lemma LastRenameReverts(loads: Bytes -> bool, s: State)
    requires s.pc.MoveAway? && Perm in s.disk && Bak in s.disk
    ensures var r := Exec(loads, s, [Succeeds, Succeeds, Fails, Succeeds, Succeeds]);
            r.pc == Failed && Holds(r.disk, Perm, s.disk[Perm]) && Holds(r.disk, Bak, s.disk[Bak])
  {
    var first, second := [Succeeds, Succeeds, Fails], [Succeeds, Succeeds];
    var s3 := Exec(loads, s, first);
    assert s3.pc == RevertRestore && Holds(s3.disk, Tmp, s.disk[Perm]) && Holds(s3.disk, Perm, s.disk[Bak]) by {
      ExecThree(loads, s, Succeeds, Succeeds, Fails);
    }
    RevertsBoth(loads, s3);
    ExecAppend(loads, s, first, second);
    assert first + second == [Succeeds, Succeeds, Fails, Succeeds, Succeeds];
  }

  lemma RevertsBoth(loads: Bytes -> bool, s: State)
    requires s.pc == RevertRestore && Tmp in s.disk && Perm in s.disk
    ensures var r := Exec(loads, s, [Succeeds, Succeeds]);
            r.pc == Failed && Holds(r.disk, Perm, s.disk[Tmp]) && Holds(r.disk, Bak, s.disk[Perm])
  {
    assert [Succeeds, Succeeds][1..] == [Succeeds] && [Succeeds][1..] == [];
    assert Exec(loads, s, [Succeeds, Succeeds]) == Step(loads, Step(loads, s, Succeeds), Succeeds);
  }

  /** Where the two original contents are while RestoreBackup runs. */
  ghost predicate Placed(s: State, p: Bytes, b: Bytes) {
    match s.pc
    case MoveAway(_) => Holds(s.disk, Perm, p) && Holds(s.disk, Bak, b)
    case Restore(_, moved) => moved && Holds(s.disk, Tmp, p) && Holds(s.disk, Bak, b)
    case RevertMove => Holds(s.disk, Tmp, p) && Holds(s.disk, Bak, b)
    case KeepOriginal(_) => Holds(s.disk, Tmp, p) && Holds(s.disk, Perm, b)
    case RevertRestore => Holds(s.disk, Tmp, p) && Holds(s.disk, Perm, b)
    case RevertBoth => Holds(s.disk, Tmp, p) && Holds(s.disk, Bak, b)
    case _ => BothOnDisk(s.disk, p, b)
  }

  ghost predicate Holds(disk: Disk, f: File, content: Bytes) {
    f in disk && disk[f] == content
  }

  ghost predicate BothOnDisk(disk: Disk, p: Bytes, b: Bytes) {
    (exists f :: Holds(disk, f, p)) && (exists f :: Holds(disk, f, b))
  }

  predicate UntilRestoreReturns(loads: Bytes -> bool, s: State, events: seq<Event>)
    decreases |events|
  {
    events == [] || (InRestoreBackup(s.pc) && UntilRestoreReturns(loads, Step(loads, s, events[0]), events[1..]))
  }

  /** Whatever fails and wherever it crashes, both contents are on disk under one of the
      three names at every step. */
  lemma {:induction false} RestoreLosesNothing(loads: Bytes -> bool, s: State, events: seq<Event>, p: Bytes, b: Bytes)
    requires Placed(s, p, b) && UntilRestoreReturns(loads, s, events)
    ensures BothOnDisk(Exec(loads, s, events).disk, p, b)
    decreases |events|
  {
    if events != [] {
      StepKeepsBoth(loads, s, events[0], p, b);
      RestoreLosesNothing(loads, Step(loads, s, events[0]), events[1..], p, b);
    }
  }

  lemma StepKeepsBoth(loads: Bytes -> bool, s: State, e: Event, p: Bytes, b: Bytes)
    requires Placed(s, p, b) && InRestoreBackup(s.pc)
    ensures Placed(Step(loads, s, e), p, b)
  {
    var disk := Step(loads, s, e).disk;
    assert Holds(disk, Perm, p) || Holds(disk, Bak, p) || Holds(disk, Tmp, p);
    assert Holds(disk, Perm, b) || Holds(disk, Bak, b) || Holds(disk, Tmp, b);
  }
}
