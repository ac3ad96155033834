/** The functions of src/swtpm/swtpm_nvstore_dir.c and tpmlib_start of src/swtpm/tpmlib.c as
    straight-line code over a disk, each system call answered by the environment.  Every
    run of this code is a run of the step machine of module DirBackend, so what is proved
    there about all runs, crashes included, holds of it. */
module DirProcess {
  import opened Bytes
  import opened DirBackend

  /** How the next system call ends; `count` is for write(). */
  datatype Answer = Answer(ok: bool, count: nat)

  /** A call returns, or the process crashes before it does. */
  datatype Status = Crashed | Returned(rc: Rc)

  function EventOf(ok: bool): Event { if ok then Succeeds else Fails }

  lemma {:induction false} ExecLast(loads: Bytes -> bool, s: State, events: seq<Event>, e: Event)
    ensures Exec(loads, s, events + [e]) == Step(loads, Exec(loads, s, events), e)
  {
    ExecAppend(loads, s, events, [e]);
    assert [e][1..] == [];
    assert Exec(loads, Exec(loads, s, events), [e]) == Step(loads, Exec(loads, s, events), e);
  }

  /** The last event decides, if all before it were tolerated. */
  lemma {:induction false} ToleratedLast(loads: Bytes -> bool, s: State, events: seq<Event>, e: Event)
    ensures Tolerated(loads, s, events + [e]) <==>
            Tolerated(loads, s, events) && !OverwritesBackup(loads, Exec(loads, s, events), e)
    decreases |events|
  {
    if events == [] {
      assert ([] + [e])[1..] == [];
    } else {
      assert (events + [e])[1..] == events[1..] + [e];
      ToleratedLast(loads, Step(loads, s, events[0]), events[1..], e);
    }
  }

  /** Where the step machine is after some events, whether it tolerates them, and what the
      stores among them were given. */
  datatype Progress = Progress(state: State, tolerated: bool, given: iset<Bytes>)

  ghost function Replay(loads: Bytes -> bool, s: State, events: seq<Event>): Progress {
    if events == [] then Progress(s, true, iset{})
    else
      var p, e := Replay(loads, s, events[..|events| - 1]), events[|events| - 1];
      Advanced(loads, p, e)
  }

  ghost function Advanced(loads: Bytes -> bool, p: Progress, e: Event): Progress {
    Progress(Step(loads, p.state, e), p.tolerated && !OverwritesBackup(loads, p.state, e),
             if e.Store? then p.given + iset{e.data} else p.given)
  }

  lemma ReplayLast(loads: Bytes -> bool, s: State, events: seq<Event>, e: Event)
    ensures Replay(loads, s, events + [e]) == Advanced(loads, Replay(loads, s, events), e)
  {
    assert (events + [e])[..|events|] == events;
  }

  lemma {:induction false} ReplayIsExec(loads: Bytes -> bool, s: State, events: seq<Event>)
    ensures var p := Replay(loads, s, events);
            && p.state == Exec(loads, s, events) && p.tolerated == Tolerated(loads, s, events)
            && forall e :: e in events && e.Store? ==> e.data in p.given
  {
    if events != [] {
      var init, last := events[..|events| - 1], events[|events| - 1];
      assert events == init + [last];
      ReplayIsExec(loads, s, init);
      ExecLast(loads, s, init, last);
      ToleratedLast(loads, s, init, last);
    }
  }

  /** The rename that the code is at, and where it goes on in either case. */
  datatype Renaming = Renaming(from: File, to: File, ok: Pc, fail: Pc)

  function RenamingAt(pc: Pc): Option<Renaming> {
    match pc
    case MoveAway(undo) => Some(Renaming(Perm, Tmp, Restore(undo, true), Failed))
    case Restore(undo, true) => Some(Renaming(Bak, Perm, KeepOriginal(undo), RevertMove))
    case Restore(undo, false) => Some(Renaming(Bak, Perm, AfterRestoreBackup(undo), Failed))
    case RevertMove => Some(Renaming(Tmp, Perm, Failed, Failed))
    case KeepOriginal(undo) => Some(Renaming(Tmp, Bak, AfterRestoreBackup(undo), RevertRestore))
    case RevertRestore => Some(Renaming(Perm, Bak, RevertBoth, Failed))
    case RevertBoth => Some(Renaming(Tmp, Perm, Failed, Failed))
    case StoreMove(data) => Some(Renaming(Perm, Bak, StoreOpen(data), Ready))
    case StoreRevert(data, _) => Some(Renaming(Bak, Perm, Ready, Ready))
    case _ => None
  }

  function PcAfterRename(pc: Pc, ok: bool): Pc
    requires RenamingAt(pc).Some?
  {
    if ok then RenamingAt(pc).value.ok else RenamingAt(pc).value.fail
  }

  lemma StepRenames(loads: Bytes -> bool, s: State, ok: bool)
    requires RenamingAt(s.pc).Some? && (ok ==> RenamingAt(s.pc).value.from in s.disk)
    ensures var r := RenamingAt(s.pc).value;
            Step(loads, s, EventOf(ok)) ==
            s.(disk := if ok then Rename(s.disk, r.from, r.to).0 else s.disk, pc := PcAfterRename(s.pc, ok))
  {
  }

  function AfterWrite(data: Bytes, written: nat): Pc {
    if written == |data| then StoreSync(data) else StoreWrite(data, written)
  }

  lemma WriteSteps(loads: Bytes -> bool, s: State, data: Bytes, written: nat, count: nat)
    requires s.pc == StoreWrite(data, written) && written + count <= |data|
    ensures Step(loads, s, Fails) == s.(pc := StoreUnlink(data))
    ensures count > 0 ==>
      Step(loads, s, Wrote(count)) ==
      s.(disk := s.disk[Perm := data[..written + count]],
         pc := AfterWrite(data, written + count))
  {
  }

  class Process {
    const loads: Bytes -> bool
    var disk: Disk
    /** What the environment will answer; the process crashes when it runs out. */
    var answers: seq<Answer>

    ghost const start: State
    ghost var trace: seq<Event>
    ghost var state: State
    /** What the stores so far were given. */
    ghost var given: iset<Bytes>
    /** No store has begun on a torn permanent file. */
    ghost var tolerated: bool

    /** The code is where the step machine is after the events so far. */
    ghost predicate Valid()
      reads this
    {
      disk == state.disk && Progress(state, tolerated, given) == Replay(loads, start, trace)
    }

    constructor (loads: Bytes -> bool, ghost start: State, answers: seq<Answer>, disk: Disk)
      requires disk == start.disk
      ensures Valid() && this.loads == loads && this.start == start && trace == [] && state == start
      ensures tolerated && given == iset{}
    {
      this.loads, this.start, this.disk, this.answers := loads, start, disk, answers;
      trace, state, given, tolerated := [], start, iset{}, true;
    }

    /** More events, but no store begun. */
    twostate predicate Goes()
      reads this
    {
      old(trace) <= trace && given == old(given) && tolerated == old(tolerated)
    }

    /** More events, but no store begun or completed. */
    twostate predicate Continues()
      reads this
    {
      Goes() && state.last == old(state.last) && state.trying == old(state.trying)
    }

    /** A system call, a crash or a start happened. */
    ghost method Log(e: Event, next: State)
      requires Progress(state, tolerated, given) == Replay(loads, start, trace)
      requires Step(loads, state, e) == next && next.disk == disk && !e.Store?
      modifies this`trace, this`state
      ensures Valid() && state == next && trace == old(trace) + [e]
    {
      ReplayLast(loads, start, trace, e);
      trace, state := trace + [e], next;
    }

    /** A store begins. */
    ghost method LogStore(data: Bytes)
      requires Valid() && state.pc == Ready
      modifies this`trace, this`state, this`given, this`tolerated
      ensures Valid() && state == Step(loads, old(state), Store(data)) && trace == old(trace) + [Store(data)]
      ensures given == old(given) + iset{data}
      ensures tolerated == (old(tolerated) && StoreIsSafe(loads, disk))
    {
      var e := Store(data);
      ReplayLast(loads, start, trace, e);
      tolerated := tolerated && StoreIsSafe(loads, disk);
      given := given + iset{data};
      trace, state := trace + [e], Step(loads, state, e);
    }

    method NextAnswer() returns (a: Option<Answer>)
      modifies this`answers
      ensures if old(answers) == [] then a == None && answers == []
              else a == Some(old(answers)[0]) && answers == old(answers)[1..]
    {
      if answers == [] {
        return None;
      }
      a := Some(answers[0]);
      answers := answers[1..];
    }

    /** rename(2). */
    method RenameFile(from: File, to: File) returns (ok: Option<bool>)
      modifies this`answers, this`disk
      ensures disk == if ok == Some(true) then Rename(old(disk), from, to).0 else old(disk)
      ensures ok.None? <==> old(answers) == []
      ensures ok.None? ==> answers == []
      ensures ok.Some? ==> (ok.value <==> old(answers)[0].ok && from in old(disk))
    {
      var a := NextAnswer();
      if a.None? {
        return None;
      }
      if a.value.ok && from in disk {
        disk := Rename(disk, from, to).0;
        return Some(true);
      }
      ok := Some(false);
    }

    /** A rename where the step machine has one. */
    method RenameHere(from: File, to: File) returns (ok: Option<bool>)
      requires Valid() && RenamingAt(state.pc).Some?
      requires RenamingAt(state.pc).value.from == from && RenamingAt(state.pc).value.to == to
      modifies this`answers, this`disk, this`trace, this`state
      ensures Valid() && Continues() && (ok.None? ==> answers == [])
      ensures ok.Some? ==> old(answers) != [] && (ok.value <==> old(answers)[0].ok && from in old(disk))
      ensures ok.Some? ==> state.pc == PcAfterRename(old(state.pc), ok.value)
      ensures ok.Some? ==> disk == if ok.value then Rename(old(disk), from, to).0 else old(disk)
    {
      ok := RenameFile(from, to);
      if ok.Some? {
        StepRenames(loads, state, ok.value);
        Log(EventOf(ok.value), state.(disk := disk, pc := PcAfterRename(state.pc, ok.value)));
      }
    }

    /** RestoreBackupPreStart_Dir. */
    method RestoreBackupPreStart(ghost retry: bool) returns (r: Status)
      requires Valid() && state.pc == PreStart(retry)
      modifies this`answers, this`disk, this`trace, this`state
      ensures Valid() && Continues() && (r == Crashed ==> answers == [])
      ensures r == Returned(Success) ==> state.pc == Loading(retry)
      ensures r.Returned? && r.rc != Success ==> state.pc == EnterRestoreBackup(disk, retry)
      ensures r.Returned? ==> r.rc == Success || r.rc == Fail
    {
      if Perm !in disk && Bak in disk {
        var ok := RenameFile(Bak, Perm);
        if ok.None? {
          return Crashed;
        }
        Log(EventOf(ok.value),
            state.(disk := disk, pc := if ok.value then Loading(retry) else EnterRestoreBackup(disk, retry)));
        return Returned(if ok.value then Success else Fail);
      }
      Log(Succeeds, state.(pc := Loading(retry)));
      r := Returned(Success);
    }

    /** TPMLIB_MainInit as far as it depends on the permanent state: it fails exactly if
        preparing the backend or loading the file fails. */
    method MainInit(ghost retry: bool) returns (r: Status)
      requires Valid() && state.pc == PreStart(retry)
      modifies this`answers, this`disk, this`trace, this`state
      ensures Valid() && Continues() && (r == Crashed ==> answers == [])
      ensures r == Returned(Success) ==> state.pc == Ready
      ensures r.Returned? && r.rc != Success ==> state.pc == EnterRestoreBackup(disk, retry)
      ensures r.Returned? ==> r.rc == Success || r.rc == Fail
    {
      r := RestoreBackupPreStart(retry);
      if r != Returned(Success) {
        return;
      }
      var loaded := Perm !in disk || loads(disk[Perm]);
      Log(Succeeds, state.(pc := if loaded then Ready else EnterRestoreBackup(disk, retry)));
      r := Returned(if loaded then Success else Fail);
    }

    /** RestoreBackup_Dir. */
    method RestoreBackup(ghost undo: bool) returns (r: Status)
      requires Valid() && state.pc == EnterRestoreBackup(disk, undo)
      modifies this`answers, this`disk, this`trace, this`state
      ensures Valid() && Continues() && (r == Crashed ==> answers == [])
      ensures r == Returned(Success) ==> state.pc == AfterRestoreBackup(undo)
      ensures r.Returned? && r.rc != Success ==> state.pc == Failed
    {
      if Bak !in disk {
        return Returned(Fail);
      }
      var present := Perm in disk;
      if present {
        var moved := RenameHere(Perm, Tmp);
        if moved.None? {
          return Crashed;
        }
        if !moved.value {
          return Returned(Fail);
        }
      }
      r := RestoreFile(undo, present);
    }

    /** The rename from the backup file, with what follows. */
    method RestoreFile(ghost undo: bool, moved: bool) returns (r: Status)
      requires Valid() && state.pc == Restore(undo, moved)
      modifies this`answers, this`disk, this`trace, this`state
      ensures Valid() && Continues() && (r == Crashed ==> answers == [])
      ensures r == Returned(Success) ==> state.pc == AfterRestoreBackup(undo)
      ensures r.Returned? && r.rc != Success ==> state.pc == Failed
    {
      var restored := RenameHere(Bak, Perm);
      if restored.None? {
        return Crashed;
      }
      if !moved {
        return Returned(if restored.value then Success else Fail);
      }
      if restored.value {
        r := KeepOriginalFile(undo);
      } else {
        var reverted := RenameHere(Tmp, Perm);
        r := if reverted.None? then Crashed else Returned(Fail);
      }
    }

    /** The last rename of RestoreBackup_Dir. */
    method KeepOriginalFile(ghost undo: bool) returns (r: Status)
      requires Valid() && state.pc == KeepOriginal(undo)
      modifies this`answers, this`disk, this`trace, this`state
      ensures Valid() && Continues() && (r == Crashed ==> answers == [])
      ensures r == Returned(Success) ==> state.pc == AfterRestoreBackup(undo)
      ensures r.Returned? && r.rc != Success ==> state.pc == Failed
    {
      var kept := RenameHere(Tmp, Bak);
      if kept.None? {
        return Crashed;
      }
      if kept.value {
        return Returned(Success);
      }
      r := RevertRestoredFile();
    }

    /** The reverting renames if that one failed. */
    method RevertRestoredFile() returns (r: Status)
      requires Valid() && state.pc == RevertRestore
      modifies this`answers, this`disk, this`trace, this`state
      ensures Valid() && Continues() && (r == Crashed ==> answers == [])
      ensures r.Returned? ==> r.rc == Fail && state.pc == Failed
    {
      var reverted := RenameHere(Perm, Bak);
      if reverted.None? {
        return Crashed;
      }
      if reverted.value {
        reverted := RenameHere(Tmp, Perm);
        if reverted.None? {
          return Crashed;
        }
      }
      r := Returned(Fail);
    }

    /** tpmlib_start with a backup: initialize, and on failure once more with the backup. */
    method TpmlibStart() returns (r: Status)
      requires Valid() && state.pc == PreStart(false)
      modifies this`answers, this`disk, this`trace, this`state
      ensures Valid() && Continues() && (r == Crashed ==> answers == [])
      ensures r == Returned(Success) ==> state.pc == Ready
      ensures r.Returned? && r.rc != Success ==> state.pc == Failed
    {
      r := MainInit(false);
      if r == Crashed || r.rc == Success {
        return;
      }
      r := StartFromBackup();
    }

    /** Initialization failed: exchange the files, and try again. */
    method StartFromBackup() returns (r: Status)
      requires Valid() && state.pc == EnterRestoreBackup(disk, false)
      modifies this`answers, this`disk, this`trace, this`state
      ensures Valid() && Continues() && (r == Crashed ==> answers == [])
      ensures r == Returned(Success) ==> state.pc == Ready
      ensures r.Returned? && r.rc != Success ==> state.pc == Failed
    {
      r := RestoreBackup(false);
      if r == Crashed || r.rc != Success {
        return;
      }
      r := RetryWithBackup();
    }

    /** The second attempt; if it fails too, the files are exchanged back. */
    method RetryWithBackup() returns (r: Status)
      requires Valid() && state.pc == PreStart(true)
      modifies this`answers, this`disk, this`trace, this`state
      ensures Valid() && Continues() && (r == Crashed ==> answers == [])
      ensures r == Returned(Success) ==> state.pc == Ready
      ensures r.Returned? && r.rc != Success ==> state.pc == Failed
    {
      r := MainInit(true);
      if r == Crashed || r.rc == Success {
        return;
      }
      r := RestoreBackup(true);
      if r != Crashed {
        r := Returned(Fail);
      }
    }

    /** One write(2), which takes some of what is left; it fails if it takes nothing. */
    method WriteSome(data: Bytes, written: nat) returns (n: Option<nat>)
      requires Valid() && written < |data| && Perm in disk && disk[Perm] == data[..written]
      requires state.pc == StoreWrite(data, written)
      modifies this`answers, this`disk, this`trace, this`state
      ensures Valid() && Continues() && (n.None? ==> answers == [])
      ensures n == Some(0) ==> state.pc == StoreUnlink(data)
      ensures n.Some? && n.value > 0 ==>
        var k := written + n.value;
        && k <= |data| && Perm in disk && disk[Perm] == data[..k]
        && state.pc == AfterWrite(data, k)
    {
      var a := NextAnswer();
      if a.None? {
        return None;
      }
      var left := |data| - written;
      var count := if !a.value.ok then 0 else if a.value.count <= left then a.value.count else left;
      if count == 0 {
        WriteSteps(loads, state, data, written, 0);
        Log(Fails, state.(pc := StoreUnlink(data)));
      } else {
        Extend(data, written, count);
      }
      n := Some(count);
    }

    method Extend(data: Bytes, written: nat, count: nat)
      requires Valid() && written < |data| && Perm in disk && disk[Perm] == data[..written]
      requires 0 < count <= |data| - written && state.pc == StoreWrite(data, written)
      modifies this`disk, this`trace, this`state
      ensures Valid() && Continues() && Perm in disk && disk[Perm] == data[..written + count]
      ensures state.pc == AfterWrite(data, written + count)
    {
      WriteSteps(loads, state, data, written, count);
      disk := disk[Perm := data[..written + count]];
      Log(Wrote(count), state.(disk := disk, pc := AfterWrite(data, written + count)));
    }

    /** write_full: the file holds a growing prefix of the data. */
    method WriteFull(data: Bytes) returns (r: Status)
      requires Valid() && Perm in disk && disk[Perm] == []
      requires state.pc == AfterWrite(data, 0)
      modifies this`answers, this`disk, this`trace, this`state
      ensures Valid() && Continues() && (r == Crashed ==> answers == [])
      ensures r == Returned(Success) ==> state.pc == StoreSync(data) && Perm in disk && disk[Perm] == data
      ensures r.Returned? && r.rc != Success ==> state.pc == StoreUnlink(data)
    {
      var written := 0;
      while written < |data|
        invariant Valid() && Continues() && written <= |data| && Perm in disk && disk[Perm] == data[..written]
        invariant state.pc == AfterWrite(data, written)
        decreases |data| - written
      {
        var n := WriteSome(data, written);
        if n.None? {
          return Crashed;
        }
        if n.value == 0 {
          return Returned(Fail);
        }
        written := written + n.value;
      }
      assert data[..written] == data;
      r := Returned(Success);
    }

    /** fsync and close. */
    method SyncFile(data: Bytes) returns (ok: Option<bool>)
      requires Valid() && state.pc == StoreSync(data)
      modifies this`answers, this`trace, this`state
      ensures Valid() && (ok.None? ==> answers == [])
      ensures Goes() && (ok != Some(true) ==> Continues())
      ensures ok.Some? ==> state.pc == if ok.value then Ready else StoreUnlink(data)
      ensures ok == Some(true) ==> state.last == data
    {
      var a := NextAnswer();
      if a.None? {
        return None;
      }
      Log(EventOf(a.value.ok),
          if a.value.ok then state.(pc := Ready, last := data, begun := {}, kept := data, trying := None)
          else state.(pc := StoreUnlink(data)));
      ok := Some(a.value.ok);
    }

    /** unlink(2) after a failed write. */
    method UnlinkFile(data: Bytes) returns (ok: Option<bool>)
      requires Valid() && state.pc == StoreUnlink(data)
      modifies this`answers, this`disk, this`trace, this`state
      ensures Valid() && Continues() && (ok.None? ==> answers == [])
      ensures ok.Some? ==> state.pc == StoreRevert(data, ok.value)
    {
      var a := NextAnswer();
      if a.None? {
        return None;
      }
      if a.value.ok {
        disk := disk - {Perm};
      }
      Log(EventOf(a.value.ok), state.(disk := disk, pc := StoreRevert(data, a.value.ok)));
      ok := Some(a.value.ok);
    }

    /** open(2) with O_CREAT and O_TRUNC. */
    method OpenFile(data: Bytes) returns (ok: Option<bool>)
      requires Valid() && state.pc == StoreOpen(data)
      modifies this`answers, this`disk, this`trace, this`state
      ensures Valid() && Continues() && (ok.None? ==> answers == [])
      ensures ok == Some(false) ==> state.pc == StoreRevert(data, true)
      ensures ok == Some(true) ==>
        Perm in disk && disk[Perm] == [] && state.pc == AfterWrite(data, 0)
    {
      var a := NextAnswer();
      if a.None? {
        return None;
      }
      if a.value.ok {
        disk := disk[Perm := []];
      }
      Log(EventOf(a.value.ok),
          state.(disk := disk, pc := if a.value.ok then AfterWrite(data, 0) else StoreRevert(data, true)));
      ok := Some(a.value.ok);
    }

    /** file_write to the permanent file. */
    method FileWrite(data: Bytes) returns (r: Status)
      requires Valid() && state.pc == StoreOpen(data)
      modifies this`answers, this`disk, this`trace, this`state
      ensures Valid() && (r == Crashed ==> answers == [])
      ensures Goes() && (r != Returned(Success) ==> Continues())
      ensures r == Returned(Success) ==> state.pc == Ready && Perm in disk && disk[Perm] == data && state.last == data
      ensures r.Returned? && r.rc != Success ==> state.pc.StoreRevert? && state.pc.data == data
    {
      var ok := OpenFile(data);
      if ok.None? {
        return Crashed;
      }
      if !ok.value {
        return Returned(Fail);
      }
      r := FillFile(data);
    }

    /** Write, sync and close the file just opened; on failure unlink it. */
    method FillFile(data: Bytes) returns (r: Status)
      requires Valid() && Perm in disk && disk[Perm] == [] && state.pc == AfterWrite(data, 0)
      modifies this`answers, this`disk, this`trace, this`state
      ensures Valid() && (r == Crashed ==> answers == [])
      ensures Goes() && (r != Returned(Success) ==> Continues())
      ensures r == Returned(Success) ==> state.pc == Ready && Perm in disk && disk[Perm] == data && state.last == data
      ensures r.Returned? && r.rc != Success ==> state.pc.StoreRevert? && state.pc.data == data
    {
      r := WriteFull(data);
      if r == Crashed {
        return;
      }
      var ok;
      if r.rc == Success {
        ok := SyncFile(data);
        if ok.None? {
          return Crashed;
        }
        if ok.value {
          return Returned(Success);
        }
      }
      ok := UnlinkFile(data);
      r := if ok.None? then Crashed else Returned(Fail);
    }

    /** StoreData_Dir in backup mode, for the permanent state. */
    method StoreData(data: Bytes) returns (r: Status)
      requires Valid() && state.pc == Ready
      modifies this`answers, this`disk, this`trace, this`state, this`given, this`tolerated
      ensures Valid() && (r == Crashed ==> answers == [])
      ensures r.Returned? ==> state.pc == Ready
      ensures r == Returned(Success) ==> Perm in disk && disk[Perm] == data && state.last == data
      ensures r.Returned? && r.rc != Success ==> state.trying == Some(data) && state.last == old(state.last)
      ensures old(trace) + [Store(data)] <= trace
      ensures given == old(given) + iset{data}
      ensures tolerated == (old(tolerated) && StoreIsSafe(loads, old(disk)))
    {
      LogStore(data);
      r := MoveToBackup(data);
      if r != Returned(Success) {
        return;
      }
      r := WriteOrRevert(data);
    }

    /** Write the permanent file; if that fails, rename the backup file back. */
    method WriteOrRevert(data: Bytes) returns (r: Status)
      requires Valid() && state.pc == StoreOpen(data)
      modifies this`answers, this`disk, this`trace, this`state
      ensures Valid() && (r == Crashed ==> answers == [])
      ensures Goes() && (r != Returned(Success) ==> Continues())
      ensures r.Returned? ==> state.pc == Ready
      ensures r == Returned(Success) ==> Perm in disk && disk[Perm] == data && state.last == data
    {
      r := FileWrite(data);
      if r == Crashed || r.rc == Success {
        return;
      }
      var reverted := RenameHere(Bak, Perm);
      r := if reverted.None? then Crashed else Returned(Fail);
    }

    /** If the permanent state file exists, rename it to the backup file. */
    method MoveToBackup(data: Bytes) returns (r: Status)
      requires Valid() && state.pc == if Perm in disk then StoreMove(data) else StoreOpen(data)
      modifies this`answers, this`disk, this`trace, this`state
      ensures Valid() && Continues() && (r == Crashed ==> answers == [])
      ensures r == Returned(Success) ==> state.pc == StoreOpen(data)
      ensures r.Returned? && r.rc != Success ==> state.pc == Ready
    {
      if Perm in disk {
        var moved := RenameHere(Perm, Bak);
        if moved.None? {
          return Crashed;
        }
        if !moved.value {
          return Returned(Fail);
        }
      }
      r := Returned(Success);
    }

    /** The process is gone, whatever it was doing, and a new one begins; the environment
        has new answers for it. */
    method Restart(answers: seq<Answer>)
      requires Valid()
      modifies this`answers, this`trace, this`state
      ensures Valid() && Continues() && state.pc == PreStart(false) && this.answers == answers
    {
      Log(Crash, state.(pc := Down));
      Log(Start, state.(pc := PreStart(false)));
      this.answers := answers;
    }

    /** Stores one after the other, until the process crashes. */
    method StoreAll(contents: seq<Bytes>)
      requires Valid() && state.pc == Ready
      modifies this`answers, this`disk, this`trace, this`state, this`given, this`tolerated
      ensures Valid() && old(trace) <= trace && (tolerated ==> old(tolerated))
      ensures forall d :: d in given ==> d in old(given) || d in contents
    {
      for i := 0 to |contents|
        invariant Valid() && state.pc == Ready && old(trace) <= trace && (tolerated ==> old(tolerated))
        invariant forall d :: d in given ==> d in old(given) || d in contents
      {
        assert contents[i] in contents;
        var r := StoreData(contents[i]);
        if r == Crashed {
          return;
        }
      }
    }

    /** One life of the process after another: start, and if that succeeds store, until a
        crash or the end.  As long as no store begins on a torn permanent file, the disk has
        a complete content at the end: the last completed store or one begun since. */
    method Live(lives: seq<(seq<Answer>, seq<Bytes>)>)
      requires Valid() && Inv(loads, start)
      requires forall d :: d in given ==> Storable(loads, d)
      requires forall i, d :: 0 <= i < |lives| && d in lives[i].1 ==> Storable(loads, d)
      modifies this`answers, this`disk, this`trace, this`state, this`given, this`tolerated
      ensures Valid() && old(trace) <= trace && forall d :: d in given ==> Storable(loads, d)
      ensures tolerated ==>
        var content := Authoritative(loads, disk);
        content.Some? && (content.value == state.last || content.value in state.begun)
    {
      for i := 0 to |lives|
        invariant Valid() && old(trace) <= trace && forall d :: d in given ==> Storable(loads, d)
      {
        Restart(lives[i].0);
        var r := TpmlibStart();
        if r == Returned(Success) {
          StoreAll(lives[i].1);
        }
      }
      if tolerated {
        DiskRecovers(this, 7);
      }
    }
  }

  /** Wherever this code is, or crashed, its disk recovers: an undisturbed restart ends with
      the authoritative content, which is the last completed store or one begun since. */
  lemma DiskRecovers(p: Process, n: nat)
    requires p.Valid() && n >= 7 && Inv(p.loads, p.start)
    requires p.tolerated && forall d :: d in p.given ==> Storable(p.loads, d)
    ensures var r := Exec(p.loads, p.state.(pc := Down), [Start] + Successes(n));
            && r.pc == Ready && Perm in r.disk
            && Authoritative(p.loads, p.disk) == Some(r.disk[Perm])
            && (r.disk[Perm] == p.state.last || r.disk[Perm] in p.state.begun)
  {
    ReplayIsExec(p.loads, p.start, p.trace);
    RunKeepsInv(p.loads, p.start, p.trace);
    RestartRecovers(p.loads, p.state.(pc := Down), n);
  }
}
