/** SWTPM_NVRAM_StoreData, LoadData and DeleteName of src/swtpm/swtpm_nvstore.c on top of the
    linear store: the state file format and the store of files together. */
module NvStore {
  import opened Bytes
  import opened SymmetricKey
  import opened StateBlob
  import LinearStore

  /** The length of the file that StoreData writes. */
  function FileLength(key: EncryptionKey, iv: Option<Bytes>, length: nat): nat
    requires key.Sized()
  {
    BLOB_HEADER_SIZE + LayerLength(key, iv, length)
  }

  ghost function PlainIn(c: Crypto, key: EncryptionKey, m: map<int, Bytes>, name: string): Result<Bytes>
    requires key.Valid()
  {
    match LinearStore.LoadResult(m, name)
    case Ok(file) => LoadedFile(c, key, file)
    case Err(rc) => Err(rc)
  }

  lemma StoredFileLength(c: Crypto, key: EncryptionKey, iv: Option<Bytes>, data: Bytes)
    requires c.Sound() && key.Valid() && IvFits(key, iv) && LayerFits(key, iv, |data|)
    ensures StoredFile(c, key, iv, data).Ok?
    ensures |StoredFile(c, key, iv, data).value| == FileLength(key, iv, |data|)
  {
    HeaderRoundTrip(LayerBytes(c, FileLayer, key, iv, data).value, FileLayer.Flags(key));
  }

  lemma StoreIsLocal(c: Crypto, key: EncryptionKey, m: map<int, Bytes>, name: string, file: Bytes, rc: Rc,
                     m': map<int, Bytes>)
    requires key.Valid() && LinearStore.StoreOutcome(m, name, file, rc, m')
    ensures rc == Success && LinearStore.GetFileNr(name).Some? ==>
            PlainIn(c, key, m', name) == LoadedFile(c, key, file)
    ensures LinearStore.GetFileNr(name).None? ==> rc == Fail && PlainIn(c, key, m', name) == Err(Fail)
    ensures || PlainIn(c, key, m', name) == LoadedFile(c, key, file)
            || PlainIn(c, key, m', name) == PlainIn(c, key, m, name)
            || PlainIn(c, key, m', name) == Err(Retry)
    ensures forall other: string :: other != name ==> PlainIn(c, key, m', other) == PlainIn(c, key, m, other)
  {
    forall other: string | other != name
      ensures LinearStore.LoadResult(m', other) == LinearStore.LoadResult(m, other)
    {
      LinearStore.StepElsewhere(m, LinearStore.StoreCall(name, file), LinearStore.Done(rc), m', other);
    }
  }

  lemma DeleteIsLocal(c: Crypto, key: EncryptionKey, m: map<int, Bytes>, name: string, rc: Rc, m': map<int, Bytes>)
    requires key.Valid() && LinearStore.MapStep(m, LinearStore.DeleteCall(name), LinearStore.Done(rc), m')
    ensures LinearStore.GetFileNr(name).Some? ==> PlainIn(c, key, m', name) == Err(Retry)
    ensures LinearStore.GetFileNr(name).None? ==> PlainIn(c, key, m', name) == Err(Fail)
    ensures forall other: string :: other != name ==> PlainIn(c, key, m', other) == PlainIn(c, key, m, other)
  {
    forall other: string | other != name
      ensures LinearStore.LoadResult(m', other) == LinearStore.LoadResult(m, other)
    {
      LinearStore.StepElsewhere(m, LinearStore.DeleteCall(name), LinearStore.Done(rc), m', other);
    }
  }

  // ---- The map from name to plaintext that a run is compared with ----------------------------

  datatype Call =
    | StoreCall(name: string, iv: Option<Bytes>, data: Bytes)
    | DeleteCall(name: string)
    | LoadCall(name: string)

  datatype CallResult = Done(rc: Rc) | Loaded(data: Result<Bytes>)

  /** What each known name loads. */
  type Plaintexts = map<string, Result<Bytes>>

  const NAMES: set<string> :=
    {LinearStore.PERMANENT_ALL_NAME, LinearStore.VOLATILESTATE_NAME, LinearStore.SAVESTATE_NAME}

  /** One call on a map from the known names to what they load.  Neither the key nor an IV
      has a part in it. */
  ghost predicate PlainStep(p: Plaintexts, c: Call, a: CallResult, p': Plaintexts) {
    match c
    case LoadCall(name) => a == Loaded(if name in p then p[name] else Err(Fail)) && p' == p
    case DeleteCall(name) =>
      a.Done? && if name in p then p' == p[name := Err(Retry)] else a.rc == Fail && p' == p
    case StoreCall(name, _, data) =>
      a.Done? && if name in p then StoreMay(p, name, data, a.rc, p') else a.rc == Fail && p' == p
  }

  /** A store succeeds, or it fails and leaves the new, the old or no state. */
  ghost predicate StoreMay(p: Plaintexts, name: string, data: Bytes, rc: Rc,
                           p': Plaintexts) {
    p' == p[name := Ok(data)] || (rc != Success && (p' == p || p' == p[name := Err(Retry)]))
  }

  ghost predicate PlainRun(p: Plaintexts, calls: seq<Call>, answers: seq<CallResult>,
                           p': Plaintexts) {
    && |answers| == |calls|
    && if calls == [] then p' == p
       else
         var n := |calls| - 1;
         exists mid :: PlainRun(p, calls[..n], answers[..n], mid) && PlainStep(mid, calls[n], answers[n], p')
  }

  lemma RunExtended(p: Plaintexts, calls: seq<Call>, i: nat, answers: seq<CallResult>,
                    mid: Plaintexts, a: CallResult, p': Plaintexts)
    requires i < |calls| && PlainRun(p, calls[..i], answers, mid) && PlainStep(mid, calls[i], a, p')
    ensures PlainRun(p, calls[..i + 1], answers + [a], p')
  {
    var calls', answers' := calls[..i + 1], answers + [a];
    assert calls'[..i] == calls[..i] && answers'[..i] == answers;
  }

  lemma StoreSteps(p: Plaintexts, p': Plaintexts, name: string, iv: Option<Bytes>,
                   data: Bytes, rc: Rc)
    requires p.Keys == p'.Keys && forall other :: other in p && other != name ==> p'[other] == p[other]
    requires name in p ==>
               || p'[name] == Ok(data)
               || (rc != Success && (p'[name] == p[name] || p'[name] == Err(Retry)))
    requires name !in p ==> rc == Fail
    ensures PlainStep(p, StoreCall(name, iv, data), Done(rc), p')
  {
    if name in p {
      assert p' == p[name := p'[name]];
      assert p[name := p[name]] == p;
    } else {
      assert p' == p;
    }
  }

  lemma DeleteSteps(p: Plaintexts, p': Plaintexts, name: string, rc: Rc)
    requires p.Keys == p'.Keys && forall other :: other in p && other != name ==> p'[other] == p[other]
    requires if name in p then p'[name] == Err(Retry) else rc == Fail
    ensures PlainStep(p, DeleteCall(name), Done(rc), p')
  {
    if name in p {
      assert p' == p[name := p'[name]];
    } else {
      assert p' == p;
    }
  }

  lemma KnownNames(name: string)
    ensures name in NAMES <==> LinearStore.GetFileNr(name).Some?
  {
  }

  // ---- The store of states -------------------------------------------------------------------

  class Nvram {
    const crypto: Crypto
    const key: EncryptionKey
    const store: LinearStore.Store

    ghost predicate Valid()
      reads this, store, store.data
    {
      crypto.Sound() && key.Valid() && store.Valid()
    }

    constructor (crypto: Crypto, key: EncryptionKey, store: LinearStore.Store)
      requires crypto.Sound() && key.Valid() && store.Valid()
      ensures Valid() && this.crypto == crypto && this.key == key && this.store == store
    {
      this.crypto, this.key, this.store := crypto, key, store;
    }

    /** The abstract state: what each name loads, as long as the file is mapped. */
    ghost function Plain(name: string): Result<Bytes>
      requires Valid()
      reads this, store, store.data
    {
      PlainIn(crypto, key, store.Contents(), name)
    }

    ghost function Plains(): Plaintexts
      requires Valid()
      reads this, store, store.data
    {
      map name | name in NAMES :: Plain(name)
    }

    method LoadData(name: string) returns (r: Result<Bytes>)
      requires Valid() && store.mapped
      ensures r == Plain(name)
    {
      var file := store.LoadData(name);
      match file
      case Err(rc) => r := Err(rc);
      case Ok(bytes) => r := LoadedFile(crypto, key, bytes);
    }

    /** A successful store is what the name loads from then on, whatever the key and the
        IV; a failed one leaves the new, the old or no state under the name; and no other
        name changes in either case.  It succeeds exactly if the store of the file does,
        and loses the mapping, without which nothing loads, exactly if that does. */
    method StoreData(name: string, iv: Option<Bytes>, data: Bytes) returns (rc: Rc)
      requires Valid() && store.mapped && IvFits(key, iv) && LayerFits(key, iv, |data|)
      requires FileLength(key, iv, |data|) <= 0x8000_0000 && store.Fits(name, FileLength(key, iv, |data|))
      modifies store`data, store`length, store`asked, store`mapped, store.data
      ensures Valid() && (fresh(store.data) || store.data == old(store.data))
      ensures rc == Success ==> Plain(name) == Ok(data)
      ensures Plain(name) == Ok(data) || Plain(name) == old(Plain(name)) || Plain(name) == Err(Retry)
      ensures forall other: string :: other != name ==> Plain(other) == old(Plain(other))
      ensures LinearStore.GetFileNr(name).Some? ==>
        var nr := LinearStore.GetFileNr(name).value;
        && (rc == Success <==> old(store.WillStore(nr, FileLength(key, iv, |data|))))
        && (store.mapped <==> !old(store.WillUnmap(nr, FileLength(key, iv, |data|))))
      ensures LinearStore.GetFileNr(name).None? ==> rc == Fail && store.mapped && Plain(name) == Err(Fail)
      ensures rc == Success || store.NeverDrops() ==> store.mapped
    {
      var file := Serialize(iv, data);
      ghost var before := store.Contents();
      rc := store.StoreData(name, file);
      StoreIsLocal(crypto, key, before, name, file, rc, store.Contents());
    }

    /** The file that StoreData_Intern hands to the backend. */
    method Serialize(iv: Option<Bytes>, data: Bytes) returns (file: Bytes)
      requires Valid() && IvFits(key, iv) && LayerFits(key, iv, |data|)
      ensures LoadedFile(crypto, key, file) == Ok(data) && |file| == FileLength(key, iv, |data|)
    {
      LoadAfterStore(crypto, key, iv, data);
      StoredFileLength(crypto, key, iv, data);
      file := StoredFile(crypto, key, iv, data).value;
    }

    method DeleteName(name: string) returns (rc: Rc)
      requires Valid() && store.mapped
      modifies store`data, store`length, store`asked, store`mapped, store.data
      ensures Valid() && (fresh(store.data) || store.data == old(store.data))
      ensures LinearStore.GetFileNr(name).Some? ==>
        var nr := LinearStore.GetFileNr(name).value;
        && Plain(name) == Err(Retry)
        && rc == LinearStore.DeleteResult(store.backing, store.env, old(store.asked), old(store.Files()[nr].Allocated()))
        && (store.mapped <==> !old(store.WillUnmapOnDelete(nr)))
      ensures LinearStore.GetFileNr(name).None? ==> rc == Fail && store.mapped && Plain(name) == Err(Fail)
      ensures forall other: string :: other != name ==> Plain(other) == old(Plain(other))
      ensures rc == Success || store.NeverDrops() ==> store.mapped
    {
      ghost var before := store.Contents();
      rc := store.DeleteName(name);
      DeleteIsLocal(crypto, key, before, name, rc, store.Contents());
    }

    // ---- Runs --------------------------------------------------------------------------------

    /** The file of a store has a length that the format and the rounding can express. */
    predicate Expressible(c: Call)
      requires key.Sized()
    {
      c.StoreCall? ==>
        IvFits(key, c.iv) && LayerFits(key, c.iv, |c.data|) && FileLength(key, c.iv, |c.data|) <= 0x8000_0000
    }

    ghost predicate CallFits(c: Call)
      requires Valid()
      reads this, store, store.data
    {
      c.StoreCall? ==> store.Fits(c.name, FileLength(key, c.iv, |c.data|))
    }

    /** Any run of stores, deletions and loads, with any IVs and through all failures, agrees
        with a plain map from name to plaintext, for as long as 32-bit offsets can address
        what is stored and the file is mapped. */
    method Run(calls: seq<Call>) returns (answers: seq<CallResult>)
      requires Valid() && store.mapped && forall c :: c in calls ==> Expressible(c)
      modifies store`data, store`length, store`asked, store`mapped, store.data
      ensures Valid() && |answers| <= |calls|
      ensures PlainRun(old(Plains()), calls[..|answers|], answers, Plains())
      ensures |answers| < |calls| ==> !store.mapped || !CallFits(calls[|answers|])
      ensures store.NeverDrops() ==> store.mapped
    {
      answers := [];
      for i := 0 to |calls|
        invariant Valid() && (fresh(store.data) || store.data == old(store.data)) && |answers| == i
        invariant PlainRun(old(Plains()), calls[..i], answers, Plains()) && (store.NeverDrops() ==> store.mapped)
      {
        if !store.mapped {
          return;
        }
        ghost var p := Plains();
        assert calls[i] in calls;
        var fits := CheckCallFits(calls[i]);
        if !fits {
          return;
        }
        var a := Perform(calls[i]);
        RunExtended(old(Plains()), calls, i, answers, p, a, Plains());
        answers := answers + [a];
      }
      assert calls[..|calls|] == calls;
    }

    method CheckCallFits(c: Call) returns (fits: bool)
      requires Valid() && store.mapped && Expressible(c)
      ensures fits <==> CallFits(c)
    {
      fits := true;
      if c.StoreCall? {
        fits := store.CheckFits(c.name, FileLength(key, c.iv, |c.data|));
      }
    }

    method Perform(c: Call) returns (a: CallResult)
      requires Valid() && store.mapped && Expressible(c) && CallFits(c)
      modifies store`data, store`length, store`asked, store`mapped, store.data
      ensures Valid() && (fresh(store.data) || store.data == old(store.data))
      ensures PlainStep(old(Plains()), c, a, Plains()) && (store.NeverDrops() ==> store.mapped)
    {
      match c
      case LoadCall(name) => a := PerformLoad(name);
      case DeleteCall(name) => a := PerformDelete(name);
      case StoreCall(_, _, _) => a := PerformStore(c);
    }

    method PerformLoad(name: string) returns (a: CallResult)
      requires Valid() && store.mapped
      ensures PlainStep(Plains(), LoadCall(name), a, Plains())
    {
      var r := LoadData(name);
      KnownNames(name);
      a := Loaded(r);
    }

    method PerformDelete(name: string) returns (a: CallResult)
      requires Valid() && store.mapped
      modifies store`data, store`length, store`asked, store`mapped, store.data
      ensures Valid() && (fresh(store.data) || store.data == old(store.data))
      ensures PlainStep(old(Plains()), DeleteCall(name), a, Plains()) && (store.NeverDrops() ==> store.mapped)
    {
      var rc := DeleteName(name);
      KnownNames(name);
      DeleteSteps(old(Plains()), Plains(), name, rc);
      a := Done(rc);
    }

    method PerformStore(c: Call) returns (a: CallResult)
      requires c.StoreCall? && Valid() && store.mapped && Expressible(c) && CallFits(c)
      modifies store`data, store`length, store`asked, store`mapped, store.data
      ensures Valid() && (fresh(store.data) || store.data == old(store.data))
      ensures PlainStep(old(Plains()), c, a, Plains()) && (store.NeverDrops() ==> store.mapped)
    {
      var rc := StoreData(c.name, c.iv, c.data);
      KnownNames(c.name);
      StoreSteps(old(Plains()), Plains(), c.name, c.iv, c.data, rc);
      a := Done(rc);
    }
  }

  // ---- What holds of all runs ------------------------------------------------------------------

  /** The call stores or deletes under the name. */
  predicate Changes(c: Call, name: string) {
    (c.StoreCall? || c.DeleteCall?) && c.name == name
  }

  /** After a successful store, and until the next change, the name loads the plaintext. */
  lemma {:induction false} LoadsLastStored(p: Plaintexts, calls: seq<Call>, answers: seq<CallResult>,
                                           p': Plaintexts, i: nat)
    requires PlainRun(p, calls, answers, p') && i < |calls|
    requires calls[i].StoreCall? && answers[i] == Done(Success)
    requires forall k :: i < k < |calls| ==> !Changes(calls[k], calls[i].name)
    ensures calls[i].name in p' && p'[calls[i].name] == Ok(calls[i].data)
  {
    var n := |calls| - 1;
    var mid :| PlainRun(p, calls[..n], answers[..n], mid) && PlainStep(mid, calls[n], answers[n], p');
    if i < n {
      LoadsLastStored(p, calls[..n], answers[..n], mid, i);
    }
  }

  /** Every load in a run answers with the plaintext of the last successful store. */
  lemma {:induction false} LoadAnswersLastStored(p: Plaintexts, calls: seq<Call>,
                                                 answers: seq<CallResult>, p': Plaintexts, i: nat, j: nat)
    requires PlainRun(p, calls, answers, p') && i < j < |calls|
    requires calls[i].StoreCall? && answers[i] == Done(Success) && calls[j] == LoadCall(calls[i].name)
    requires forall k :: i < k < j ==> !Changes(calls[k], calls[i].name)
    ensures answers[j] == Loaded(Ok(calls[i].data))
  {
    var n := |calls| - 1;
    var mid :| PlainRun(p, calls[..n], answers[..n], mid) && PlainStep(mid, calls[n], answers[n], p');
    if j < n {
      LoadAnswersLastStored(p, calls[..n], answers[..n], mid, i, j);
    } else {
      LoadsLastStored(p, calls[..n], answers[..n], mid, i);
    }
  }

  /** Nothing but a plaintext that was stored or that was there before is ever loaded: with
      readable or absent states to begin with, a load gives one or TPM_RETRY. */
  lemma {:induction false} RunStaysReadable(p: Plaintexts, calls: seq<Call>, answers: seq<CallResult>,
                                            p': Plaintexts, known: iset<Bytes>)
    requires PlainRun(p, calls, answers, p') && Readable(p, known)
    requires forall i :: 0 <= i < |calls| && calls[i].StoreCall? ==> calls[i].data in known
    ensures Readable(p', known)
  {
    if calls != [] {
      var n := |calls| - 1;
      var mid :| PlainRun(p, calls[..n], answers[..n], mid) && PlainStep(mid, calls[n], answers[n], p');
      RunStaysReadable(p, calls[..n], answers[..n], mid, known);
    }
  }

  ghost predicate Readable(p: Plaintexts, known: iset<Bytes>) {
    forall name :: name in p ==> p[name] == Err(Retry) || (p[name].Ok? && p[name].value in known)
  }
}
