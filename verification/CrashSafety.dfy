/** The directory backend under the state files that SWTPM_NVRAM_StoreData writes: what
    LoadData returns after a crash anywhere in a run. */
module CrashSafety {
  import opened Bytes
  import opened SymmetricKey
  import opened StateBlob
  import DirBackend

  /** LoadData accepts the permanent file. */
  function Loads(c: Crypto, key: EncryptionKey): Bytes -> bool
    requires key.Valid()
  {
    file => LoadedFile(c, key, file).Ok?
  }

  /** The file is what StoreData writes for `plain`, with some IV or none. */
  ghost predicate FileOf(c: Crypto, key: EncryptionKey, file: Bytes, plain: Bytes)
    requires c.Sound() && key.Valid()
  {
    exists iv: Option<Bytes> ::
      IvFits(key, iv) && LayerFits(key, iv, |plain|) && StoredFile(c, key, iv, plain) == Ok(file)
  }

  ghost predicate IsStateFile(c: Crypto, key: EncryptionKey, file: Bytes)
    requires c.Sound() && key.Valid()
  {
    exists plain: Bytes :: FileOf(c, key, file, plain)
  }

  /** Files written by StoreData load in full, to what was stored, and in no part. */
  lemma StoredFileIsStorable(c: Crypto, key: EncryptionKey, file: Bytes, plain: Bytes)
    requires c.Sound() && key.Valid() && FileOf(c, key, file, plain)
    ensures LoadedFile(c, key, file) == Ok(plain)
    ensures DirBackend.Storable(Loads(c, key), file)
  {
    var iv: Option<Bytes> :|
      IvFits(key, iv) && LayerFits(key, iv, |plain|) && StoredFile(c, key, iv, plain) == Ok(file);
    LoadAfterStore(c, key, iv, plain);
    forall k | 0 <= k < |file|
      ensures !Loads(c, key)(file[..k])
    {
      TornFileDoesNotLoad(c, key, iv, plain, key, k);
    }
  }

  ghost predicate StoresStateFiles(c: Crypto, key: EncryptionKey, events: seq<DirBackend.Event>)
    requires c.Sound() && key.Valid()
  {
    forall e :: e in events && e.Store? ==> IsStateFile(c, key, e.data)
  }

  lemma StateFilesAreStorable(c: Crypto, key: EncryptionKey, events: seq<DirBackend.Event>)
    requires c.Sound() && key.Valid() && StoresStateFiles(c, key, events)
    ensures DirBackend.Stores(Loads(c, key), events)
  {
    forall e | e in events && e.Store?
      ensures DirBackend.Storable(Loads(c, key), e.data)
    {
      var plain :| FileOf(c, key, e.data, plain);
      StoredFileIsStorable(c, key, e.data, plain);
    }
  }

  /** The history variables, and a store in progress, hold known contents only. */
  ghost predicate HistoryKnown(s: DirBackend.State, known: iset<Bytes>) {
    && s.last in known && (forall d :: d in s.begun ==> d in known)
    && (s.pc.StoreSync? || s.pc.StoreOpen? || s.pc.StoreWrite? || s.pc.StoreMove? ==> s.pc.data in known)
  }

  lemma StepKeepsHistory(loads: Bytes -> bool, s: DirBackend.State, e: DirBackend.Event, known: iset<Bytes>)
    requires HistoryKnown(s, known) && (e.Store? ==> e.data in known)
    ensures HistoryKnown(DirBackend.Step(loads, s, e), known)
  {
    if s.pc.StoreMove? || s.pc.StoreOpen? || s.pc.StoreWrite? || s.pc.StoreSync? || s.pc.StoreUnlink? || s.pc.StoreRevert? {
      StoreKeepsHistory(loads, s, e, known);
    }
  }

  lemma StoreKeepsHistory(loads: Bytes -> bool, s: DirBackend.State, e: DirBackend.Event, known: iset<Bytes>)
    requires HistoryKnown(s, known)
    requires || s.pc.StoreMove? || s.pc.StoreOpen? || s.pc.StoreWrite? || s.pc.StoreSync? || s.pc.StoreUnlink?
             || s.pc.StoreRevert?
    ensures HistoryKnown(DirBackend.Step(loads, s, e), known)
  {
  }

  lemma {:induction false} HistoryIsStored(loads: Bytes -> bool, s: DirBackend.State, events: seq<DirBackend.Event>,
                                           known: iset<Bytes>)
    requires HistoryKnown(s, known) && forall e :: e in events && e.Store? ==> e.data in known
    ensures HistoryKnown(DirBackend.Exec(loads, s, events), known)
    decreases |events|
  {
    if events != [] {
      assert events[0] in events;
      assert forall e :: e in events[1..] ==> e in events;
      StepKeepsHistory(loads, s, events[0], known);
      HistoryIsStored(loads, DirBackend.Step(loads, s, events[0]), events[1..], known);
    }
  }

  /** Run stores, failing calls and restarts, crash anywhere, and restart undisturbed:
      LoadData then returns, in full, the state of the last store that completed or of a
      store begun after it. */
  lemma StateSurvivesCrash(c: Crypto, key: EncryptionKey, s0: DirBackend.State, events: seq<DirBackend.Event>, n: nat)
    returns (file: Bytes, plain: Bytes)
    requires c.Sound() && key.Valid() && n >= 7
    requires DirBackend.Inv(Loads(c, key), s0) && HistoryKnown(s0, iset f | IsStateFile(c, key, f))
    requires StoresStateFiles(c, key, events) && DirBackend.Tolerated(Loads(c, key), s0, events)
    ensures var loads := Loads(c, key);
            var s := DirBackend.Exec(loads, s0, events);
            var r := DirBackend.Exec(loads, DirBackend.Step(loads, s, DirBackend.Crash),
                                     [DirBackend.Start] + DirBackend.Successes(n));
            && r.pc == DirBackend.Ready && DirBackend.Perm in r.disk && r.disk[DirBackend.Perm] == file
            && (file == s.last || file in s.begun)
            && FileOf(c, key, file, plain) && LoadedFile(c, key, file) == Ok(plain)
  {
    var loads := Loads(c, key);
    StateFilesAreStorable(c, key, events);
    DirBackend.CrashRecovery(loads, s0, events, n);
    var s := DirBackend.Exec(loads, s0, events);
    var r := DirBackend.Exec(loads, DirBackend.Step(loads, s, DirBackend.Crash),
                             [DirBackend.Start] + DirBackend.Successes(n));
    file := r.disk[DirBackend.Perm];
    HistoryIsStored(loads, s0, events, iset f | IsStateFile(c, key, f));
    plain :| FileOf(c, key, file, plain);
    StoredFileIsStorable(c, key, file, plain);
  }
}
