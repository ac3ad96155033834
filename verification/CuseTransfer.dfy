/** Chunked transfer of state blobs through the CUSE interface of src/swtpm/cuse_tpm.c:
    ioctls that carry a piece of a blob each, and read() and write() in between. */
module CuseTransfer {
  import opened Bytes
  import opened StateBlob

  const STATE_BLOB_SIZE := 3072

  datatype TxState = RwCommand | SetBlob | GetBlob

  datatype CachedBlob = CachedBlob(blobtype: Word32, decrypt: bool, isEncrypted: bool, data: Bytes)

  /** One call of SWTPM_NVRAM_SetStateBlob. */
  datatype Delivery = Delivery(data: Bytes, isEncrypted: bool, blobtype: Word32)

  /** The random IVs that GetStateBlob draws for its two layers; None if there is no
      memory for one. */
  datatype Ivs = Ivs(file: Option<Bytes>, migration: Option<Bytes>)

  /** What a load depends on besides the store: the IVs, and, if it is the volatile state
      that is asked for, what SWTPM_NVRAM_Store_Volatile gets from libtpms or how it fails,
      and the IV that it stores with. */
  datatype Inputs = Inputs(ivs: Ivs, volatile: Result<Bytes>, volatileIv: Option<Bytes>)
  {
    predicate Sane() { volatile.Err? ==> volatile.rc != Success }
  }

  const BLOB_TYPE_VOLATILE: Word32 := 2

  /** SWTPM_NVRAM_GetStateBlob with what LoadData returned, SWTPM_NVRAM_SetStateBlob, and the
      format of state files: what StoreData writes, and what LoadData makes of a file. */
  datatype Codec = Codec(getBlob: (bool, Ivs, Bytes) -> Result<(Bytes, bool)>,
                         setBlob: (Bytes, bool, Word32) -> SetOutcome,
                         store: (Option<Bytes>, Bytes) -> Result<Bytes>,
                         load: Bytes -> Result<Bytes>)
  {
    /** A blob is never empty, and a failure is never reported as success. */
    ghost predicate Sane() {
      && (forall decrypt, ivs, plain ::
            match getBlob(decrypt, ivs, plain)
            case Ok(got) => |got.0| > 0
            case Err(rc) => rc != Success)
      && (forall iv, plain :: store(iv, plain) != Err(Success))
      && (forall file :: load(file) != Err(Success))
    }

    /** SWTPM_NVRAM_GetStateBlob on the files there are. */
    function GetStored(stored: map<Word32, Bytes>, blobtype: Word32, decrypt: bool, ivs: Ivs): Result<(Bytes, bool)> {
      if blobtype !in stored then Err(Retry)
      else
        var plain :- load(stored[blobtype]);
        getBlob(decrypt, ivs, plain)
    }

    /** SWTPM_NVRAM_Store_Volatile. */
    function StoreVolatile(stored: map<Word32, Bytes>, inputs: Inputs): Result<map<Word32, Bytes>> {
      var state :- inputs.volatile;
      var file :- store(inputs.volatileIv, state);
      Ok(stored[BLOB_TYPE_VOLATILE := file])
    }

    /** The state of a known type that is asked for. */
    function Source(stored: map<Word32, Bytes>, blobtype: Word32, inputs: Inputs): Result<Bytes> {
      if blobtype == BLOB_TYPE_VOLATILE then
        var state :- inputs.volatile;
        var file :- store(inputs.volatileIv, state);
        load(file)
      else if blobtype in stored then load(stored[blobtype])
      else Err(Retry)
    }

    /** The outcome of serializing it. */
    function Snapshot(stored: map<Word32, Bytes>, blobtype: Word32, decrypt: bool, inputs: Inputs)
      : Result<(Bytes, bool)>
    {
      var plain :- Source(stored, blobtype, inputs);
      getBlob(decrypt, inputs.ivs, plain)
    }

    /** What is left when a blob was asked for: the volatile state is gone. */
    function Remaining(stored: map<Word32, Bytes>, blobtype: Word32): map<Word32, Bytes> {
      if blobtype == BLOB_TYPE_VOLATILE then stored - {blobtype} else stored
    }
  }

  function Min(a: nat, b: nat): nat { if a <= b then a else b }

  function Sum(sizes: seq<nat>): nat {
    if sizes == [] then 0 else sizes[0] + Sum(sizes[1..])
  }

  function Concat(pieces: seq<Bytes>): Bytes {
    if pieces == [] then [] else pieces[0] + Concat(pieces[1..])
  }

  class CuseTpm {
    const codec: Codec

    /** The state files, by blob type. */
    var stored: map<Word32, Bytes>
    /** The payload last passed to TPMLIB_SetState, by state type. */
    var installed: map<StateType, Bytes>
    /** All calls of SetStateBlob so far. */
    var deliveries: seq<Delivery>

    var txState: TxState
    var txBlobtype: Word32
    var txEncrypted: bool
    var txOffset: nat

    var cached: Option<CachedBlob>

    var accType: Byte
    var accData: Bytes
    var accEncrypted: bool

    ghost predicate Valid()
      reads this
    {
      codec.Sane() && (cached.Some? ==> 0 < |cached.value.data|)
    }

    constructor (codec: Codec, stored: map<Word32, Bytes>)
      requires codec.Sane()
      ensures Valid() && this.codec == codec && this.stored == stored
      ensures txState == RwCommand && cached == None && accType == 0 && accData == []
      ensures deliveries == [] && installed == map[]
    {
      this.codec, this.stored := codec, stored;
      installed, deliveries := map[], [];
      txState, txBlobtype, txEncrypted, txOffset := RwCommand, 0, false, 0;
      cached := None;
      accType, accData, accEncrypted := 0, [], false;
    }

    // ---- Fetching -------------------------------------------------------------------

    predicate IsLoaded(blobtype: Word32, decrypt: bool)
      reads this
    {
      cached.Some? && cached.value.blobtype == blobtype && cached.value.decrypt == decrypt
    }

    /** What a load into the cache makes of the state that is asked for. */
    function Snapshot(blobtype: Word32, decrypt: bool, inputs: Inputs): (r: Result<(Bytes, bool)>)
      reads this
    {
      if BlobTypeToStateType(blobtype).None? then Err(BadParameter)
      else codec.Snapshot(stored, blobtype, decrypt, inputs)
    }

    /** The volatile state is stored first and its file is removed afterwards. */
    method CachedStateblobLoad(blobtype: Word32, decrypt: bool, inputs: Inputs) returns (res: Rc)
      requires Valid() && inputs.Sane()
      modifies this`cached, this`stored
      ensures Valid()
      ensures BlobTypeToStateType(blobtype).None? ==> cached == old(cached)
      ensures match old(Snapshot(blobtype, decrypt, inputs))
              case Ok(got) => res == Success && cached == Some(CachedBlob(blobtype, decrypt, got.1, got.0))
              case Err(rc) => res == rc && (BlobTypeToStateType(blobtype).Some? ==> cached == None)
      ensures stored == codec.Remaining(old(stored), blobtype)
    {
      if BlobTypeToStateType(blobtype).None? {
        return BadParameter;
      }
      cached, res := None, Success;
      if blobtype == BLOB_TYPE_VOLATILE {
        match codec.StoreVolatile(stored, inputs) {
          case Ok(files) => stored := files;
          case Err(rc) => res := rc;
        }
      }
      if res == Success {
        match codec.GetStored(stored, blobtype, decrypt, inputs.ivs) {
          case Ok(got) => cached := Some(CachedBlob(blobtype, decrypt, got.1, got.0));
          case Err(rc) => res := rc;
        }
      }
      if blobtype == BLOB_TYPE_VOLATILE {
        stored := stored - {blobtype};
      }
    }

    /** The cache once a client asked for a blob: what was there, or a new snapshot. */
    twostate predicate Fetched(blobtype: Word32, decrypt: bool, inputs: Inputs)
      reads this
    {
      && IsLoaded(blobtype, decrypt)
      && if old(IsLoaded(blobtype, decrypt)) then cached == old(cached) && stored == old(stored)
         else old(Snapshot(blobtype, decrypt, inputs)) == Result.Ok((cached.value.data, cached.value.isEncrypted))
    }

    /** PTM_GET_STATEBLOB: a piece of the cached blob, which is loaded if need be. */
    method GetStateblob(blobtype: Word32, decrypt: bool, offset: nat, inputs: Inputs)
      returns (res: Rc, data: Bytes, totlength: nat, isEncrypted: bool)
      requires Valid() && inputs.Sane()
      modifies this`cached, this`stored, this`txState, this`txBlobtype, this`txEncrypted, this`txOffset
      ensures Valid()
      ensures res == Success ==>
        && Fetched(blobtype, decrypt, inputs)
        && totlength == |cached.value.data|
        && data == cached.value.data[Min(offset, totlength)..Min(offset + STATE_BLOB_SIZE, totlength)]
        && (offset < totlength ==> isEncrypted == cached.value.isEncrypted)
        && txState == (if offset + |data| < totlength then GetBlob else RwCommand)
        && (txState == GetBlob ==> txOffset == |data|)
      ensures old(IsLoaded(blobtype, decrypt)) || old(Snapshot(blobtype, decrypt, inputs)).Ok? ==> res == Success
      ensures res != Success ==> txState == RwCommand && data == [] && old(Snapshot(blobtype, decrypt, inputs)) == Err(res)
    {
      res, data, isEncrypted := Success, [], false;
      if !IsLoaded(blobtype, decrypt) {
        res := CachedStateblobLoad(blobtype, decrypt, inputs);
      }
      if res == Success && offset < |cached.value.data| {
        data := cached.value.data[offset..Min(offset + STATE_BLOB_SIZE, |cached.value.data|)];
        isEncrypted := cached.value.isEncrypted;
      }
      totlength := if cached.Some? then |cached.value.data| else 0;
      if res == Success && offset + |data| < totlength {
        txState, txBlobtype, txEncrypted, txOffset := GetBlob, blobtype, isEncrypted, |data|;
      } else {
        txState := RwCommand;
      }
    }

    /** read() while a blob is being fetched; None is EIO. */
    method ReadStateblob(size: nat) returns (data: Option<Bytes>)
      requires Valid() && txState == GetBlob
      modifies this`txState, this`txOffset
      ensures cached.Some? && old(txOffset) <= |cached.value.data| ==>
        && var available := |cached.value.data| - old(txOffset);
           && data == Some(cached.value.data[old(txOffset)..old(txOffset) + Min(size, available)])
           && txOffset == old(txOffset) + Min(size, available)
           && txState == (if available < size then RwCommand else GetBlob)
      ensures !(cached.Some? && old(txOffset) <= |cached.value.data|) ==> data == None && txState == RwCommand
    {
      if cached.None? || txOffset > |cached.value.data| {
        txState := RwCommand;
        return None;
      }
      var available := |cached.value.data| - txOffset;
      var tocopy := Min(size, available);
      data := Some(cached.value.data[txOffset..txOffset + tocopy]);
      txOffset := txOffset + tocopy;
      if available < size {
        txState := RwCommand;
      }
    }

    /** A client that repeats the ioctl at accumulated offsets collects exactly the one
        snapshot that the first ioctl loaded or found, and command mode is on again. */
    method FetchByIoctls(blobtype: Word32, decrypt: bool, inputs: Inputs)
      returns (res: Rc, blob: Bytes, isEncrypted: bool)
      requires Valid() && inputs.Sane()
      modifies this`cached, this`stored, this`txState, this`txBlobtype, this`txEncrypted, this`txOffset
      ensures Valid() && txState == RwCommand
      ensures res == Success ==>
        && Fetched(blobtype, decrypt, inputs)
        && blob == cached.value.data && isEncrypted == cached.value.isEncrypted
      ensures old(IsLoaded(blobtype, decrypt)) || old(Snapshot(blobtype, decrypt, inputs)).Ok? ==> res == Success
    {
      var totlength;
      res, blob, totlength, isEncrypted := GetStateblob(blobtype, decrypt, 0, inputs);
      if res == Success {
        blob := FetchRest(blobtype, decrypt, blob, inputs);
      }
    }

    method FetchRest(blobtype: Word32, decrypt: bool, first: Bytes, inputs: Inputs) returns (blob: Bytes)
      requires Valid() && inputs.Sane() && IsLoaded(blobtype, decrypt) && first <= cached.value.data
      requires first == cached.value.data ==> txState == RwCommand
      modifies this`cached, this`stored, this`txState, this`txBlobtype, this`txEncrypted, this`txOffset
      ensures Valid() && txState == RwCommand && cached == old(cached) && stored == old(stored)
      ensures blob == cached.value.data
    {
      blob := first;
      while |blob| < |cached.value.data|
        invariant Valid() && cached == old(cached) && stored == old(stored)
        invariant blob <= cached.value.data
        invariant |blob| == |cached.value.data| ==> txState == RwCommand
      {
        var res, piece, totlength, flag := GetStateblob(blobtype, decrypt, |blob|, inputs);
        blob := blob + piece;
      }
    }

    /** A client that uses one ioctl at offset 0 and then read()s of any positive sizes:
        what it collects is a prefix of the snapshot, and all of it once command mode is
        on again; asking for more than is left always ends the transfer. */
    method FetchByReads(blobtype: Word32, decrypt: bool, inputs: Inputs, sizes: seq<nat>)
      returns (res: Rc, blob: Bytes, isEncrypted: bool)
      requires Valid() && inputs.Sane()
      requires forall i :: 0 <= i < |sizes| ==> sizes[i] > 0
      modifies this`cached, this`stored, this`txState, this`txBlobtype, this`txEncrypted, this`txOffset
      ensures Valid()
      ensures res == Success ==>
        && Fetched(blobtype, decrypt, inputs)
        && blob <= cached.value.data && isEncrypted == cached.value.isEncrypted
        && (txState == RwCommand ==> blob == cached.value.data)
        && (txState != RwCommand ==> txState == GetBlob && |blob| == STATE_BLOB_SIZE + Sum(sizes))
        && (STATE_BLOB_SIZE + Sum(sizes) > |cached.value.data| ==> txState == RwCommand)
      ensures old(IsLoaded(blobtype, decrypt)) || old(Snapshot(blobtype, decrypt, inputs)).Ok? ==> res == Success
    {
      var totlength;
      res, blob, totlength, isEncrypted := GetStateblob(blobtype, decrypt, 0, inputs);
      if res == Success {
        blob := ReadRest(blob, sizes);
      }
    }

    /** The read() loop of such a client. */
    method ReadRest(first: Bytes, sizes: seq<nat>) returns (blob: Bytes)
      requires Valid() && cached.Some? && first <= cached.value.data
      requires txState == (if |first| < |cached.value.data| then GetBlob else RwCommand)
      requires txState == GetBlob ==> txOffset == |first|
      requires forall i :: 0 <= i < |sizes| ==> sizes[i] > 0
      modifies this`txState, this`txOffset
      ensures blob <= cached.value.data
      ensures txState == RwCommand ==> blob == cached.value.data
      ensures txState != RwCommand ==> |blob| == |first| + Sum(sizes) && txState == GetBlob
      ensures old(txState) == RwCommand ==> txState == RwCommand
    {
      blob := first;
      var i := 0;
      assert sizes[0..] == sizes;
      while i < |sizes| && txState == GetBlob
        invariant i <= |sizes| && blob <= cached.value.data
        invariant txState == GetBlob ==> txOffset == |blob| && |blob| + Sum(sizes[i..]) == |first| + Sum(sizes)
        invariant txState != GetBlob ==> txState == RwCommand && blob == cached.value.data
        invariant old(txState) == RwCommand ==> txState == RwCommand
      {
        assert sizes[i..][1..] == sizes[i + 1..];
        var piece := ReadStateblob(sizes[i]);
        blob := blob + piece.value;
        i := i + 1;
      }
    }

    // ---- Sending ---------------------------------------------------------------------

    /** The bytes of this type that earlier calls have left in the accumulator.  Its type
        field has 8 bits: a type from 256 on never matches it, and every piece starts over. */
    function Pending(blobtype: Word32): Bytes
      reads this
    {
      if accType == blobtype then accData else []
    }

    /** The flag SetStateBlob will get: that of the call that opened the accumulator. */
    function PendingFlag(blobtype: Word32, isEncrypted: bool): bool
      reads this
    {
      if accType == blobtype then accEncrypted else isEncrypted
    }

    /** Append a piece; the last piece passes everything on to SetStateBlob. */
    method SetStateblobAppend(blobtype: Word32, data: Bytes, isEncrypted: bool, isLast: bool) returns (res: Rc)
      modifies this`accType, this`accData, this`accEncrypted, this`txState, this`deliveries, this`installed
      ensures var opening := old(accType) != blobtype && data == [];
              if opening || !isLast then
                && res == Success && deliveries == old(deliveries) && installed == old(installed)
                && accType == blobtype % 256 && accData == old(Pending(blobtype)) + data
                && accEncrypted == old(PendingFlag(blobtype, isEncrypted)) && txState == old(txState)
              else Delivered(old(Pending(blobtype)) + data, old(PendingFlag(blobtype, isEncrypted)), blobtype, res)
    {
      if accType != blobtype {
        accType, accData, accEncrypted := blobtype % 256, [], isEncrypted;
        if data == [] {
          return Success;
        }
      }
      accData := accData + data;
      if !isLast {
        return Success;
      }
      deliveries := deliveries + [Delivery(accData, accEncrypted, blobtype)];
      match codec.setBlob(accData, accEncrypted, blobtype) {
        case SetState(st, payload) =>
          installed := installed[st := payload];
          res := Success;
        case Refused(rc) =>
          res := rc;
      }
      accType, accData := 0, [];
      txState := RwCommand;
    }

    /** SetStateBlob was called once, with these arguments; the accumulator is empty
        and command mode is on again. */
    twostate predicate Delivered(data: Bytes, isEncrypted: bool, blobtype: Word32, res: Rc)
      reads this
    {
      && deliveries == old(deliveries) + [Delivery(data, isEncrypted, blobtype)]
      && accType == 0 && accData == [] && txState == RwCommand
      && match codec.setBlob(data, isEncrypted, blobtype)
         case SetState(st, payload) => res == Success && installed == old(installed)[st := payload]
         case Refused(rc) => res == rc && installed == old(installed)
    }

    /** PTM_SET_STATEBLOB: a piece shorter than a full packet is the last one. */
    method SetStateblob(blobtype: Word32, data: Bytes, isEncrypted: bool) returns (res: Rc)
      modifies this`accType, this`accData, this`accEncrypted, this`deliveries, this`installed
      modifies this`txState, this`txBlobtype, this`txEncrypted, this`txOffset
      ensures |data| > STATE_BLOB_SIZE ==>
        && res == BadParameter && deliveries == old(deliveries) && installed == old(installed)
        && accType == old(accType) && accData == old(accData) && txState == old(txState)
      ensures |data| <= STATE_BLOB_SIZE ==>
        var opening := old(accType) != blobtype && data == [];
        if opening || |data| == STATE_BLOB_SIZE then
          && res == Success && deliveries == old(deliveries) && installed == old(installed)
          && accType == blobtype % 256 && accData == old(Pending(blobtype)) + data
          && accEncrypted == old(PendingFlag(blobtype, isEncrypted))
          && txState == SetBlob && txBlobtype == blobtype && txEncrypted == isEncrypted
        else Delivered(old(Pending(blobtype)) + data, old(PendingFlag(blobtype, isEncrypted)), blobtype, res)
    {
      if |data| > STATE_BLOB_SIZE {
        return BadParameter;
      }
      txState, txBlobtype, txEncrypted, txOffset := SetBlob, blobtype, isEncrypted, 0;
      res := SetStateblobAppend(blobtype, data, isEncrypted, STATE_BLOB_SIZE != |data|);
      if res != Success {
        txState := RwCommand;
      }
    }

    /** write() while a blob is being sent. */
    method WriteStateblob(data: Bytes) returns (res: Rc)
      modifies this`accType, this`accData, this`accEncrypted, this`deliveries, this`installed, this`txState
      ensures data != [] ==>
        && res == Success && deliveries == old(deliveries) && installed == old(installed)
        && accType == txBlobtype % 256 && accData == old(Pending(txBlobtype)) + data
        && accEncrypted == old(PendingFlag(txBlobtype, txEncrypted)) && txState == old(txState)
      ensures data == [] && old(accType) == txBlobtype ==>
        Delivered(old(accData), old(accEncrypted), txBlobtype, res)
      ensures data == [] && old(accType) != txBlobtype ==>
        && res == Success && deliveries == old(deliveries) && installed == old(installed)
        && accType == txBlobtype % 256 && accData == [] && accEncrypted == txEncrypted && txState == old(txState)
    {
      assert accData + [] == accData;
      res := SetStateblobAppend(txBlobtype, data, txEncrypted, data == []);
      if res != Success {
        txState := RwCommand;
      }
    }

    /** A client that sends full packets and then a short or empty one: SetStateBlob is
        called exactly once, with exactly the blob behind whatever an aborted transfer of
        the same type had left.  A client that sends an empty packet as the only one, and
        without a pending transfer, has only opened the transfer. */
    method SendByPackets(blobtype: Word32, blob: Bytes, isEncrypted: bool) returns (res: Rc)
      requires blobtype < 256 && (blob != [] || accType == blobtype)
      modifies this`accType, this`accData, this`accEncrypted, this`deliveries, this`installed
      modifies this`txState, this`txBlobtype, this`txEncrypted, this`txOffset
      ensures Delivered(old(Pending(blobtype)) + blob, old(PendingFlag(blobtype, isEncrypted)), blobtype, res)
    {
      var i := 0;
      while i + STATE_BLOB_SIZE <= |blob|
        invariant i <= |blob| && deliveries == old(deliveries) && installed == old(installed)
        invariant Pending(blobtype) == old(Pending(blobtype)) + blob[..i]
        invariant PendingFlag(blobtype, isEncrypted) == old(PendingFlag(blobtype, isEncrypted))
        invariant i > 0 || old(accType) == blobtype ==> accType == blobtype
      {
        var packet := blob[i..i + STATE_BLOB_SIZE];
        assert blob[..i] + packet == blob[..i + STATE_BLOB_SIZE];
        var r := SetStateblob(blobtype, packet, isEncrypted);
        i := i + STATE_BLOB_SIZE;
      }
      assert (old(Pending(blobtype)) + blob[..i]) + blob[i..] == old(Pending(blobtype)) + blob;
      res := SetStateblob(blobtype, blob[i..], isEncrypted);
    }

    /** A client that opens the transfer with an empty ioctl, writes non-empty pieces and
        closes with an empty ioctl: SetStateBlob is called exactly once, with exactly the
        concatenation, provided no transfer of that type was pending. */
    method SendByWrites(blobtype: Word32, pieces: seq<Bytes>, isEncrypted: bool) returns (res: Rc)
      requires blobtype < 256 && accType != blobtype
      requires forall i :: 0 <= i < |pieces| ==> pieces[i] != []
      modifies this`accType, this`accData, this`accEncrypted, this`deliveries, this`installed
      modifies this`txState, this`txBlobtype, this`txEncrypted, this`txOffset
      ensures Delivered(Concat(pieces), isEncrypted, blobtype, res)
    {
      res := SetStateblob(blobtype, [], isEncrypted);
      assert pieces[0..] == pieces;
      for i := 0 to |pieces|
        invariant txState == SetBlob && txBlobtype == blobtype && txEncrypted == isEncrypted
        invariant accType == blobtype && accEncrypted == isEncrypted
        invariant deliveries == old(deliveries) && installed == old(installed)
        invariant accData + Concat(pieces[i..]) == Concat(pieces)
      {
        assert pieces[i..][1..] == pieces[i + 1..];
        assert accData + (pieces[i] + Concat(pieces[i + 1..])) == (accData + pieces[i]) + Concat(pieces[i + 1..]);
        res := WriteStateblob(pieces[i]);
      }
      assert accData == Concat(pieces);
      res := SetStateblob(blobtype, [], isEncrypted);
    }
  }

  // ---- From one end to the other ------------------------------------------------------------

  /** Setting what getting made passes the plaintext on. */
  ghost predicate RoundTrips(codec: Codec, decrypt: bool, ivs: Ivs, plain: Bytes, blobtype: Word32) {
    var got := codec.getBlob(decrypt, ivs, plain);
    && BlobTypeToStateType(blobtype).Some? && got.Ok?
    && codec.setBlob(got.value.0, got.value.1, blobtype) == SetState(BlobTypeToStateType(blobtype).value, plain)
  }

  /** A source that loads `plain` for this type and has not cached an older state, and a
      destination with a codec that understands it. */
  ghost predicate Relayable(src: CuseTpm, dst: CuseTpm, blobtype: Word32, decrypt: bool, inputs: Inputs, plain: Bytes)
    reads src, dst
  {
    && src != dst && src.Valid() && dst.Valid() && src.codec == dst.codec && inputs.Sane()
    && !src.IsLoaded(blobtype, decrypt) && src.codec.Source(src.stored, blobtype, inputs) == Ok(plain)
    && RoundTrips(src.codec, decrypt, inputs.ivs, plain, blobtype)
  }

  /** The plaintext has been set at the destination, by one delivery. */
  twostate predicate Relayed(dst: CuseTpm, blobtype: Word32, plain: Bytes, res: Rc)
    requires BlobTypeToStateType(blobtype).Some?
    reads dst
  {
    && res == Success && dst.txState == RwCommand
    && |dst.deliveries| == |old(dst.deliveries)| + 1
    && dst.installed == old(dst.installed)[BlobTypeToStateType(blobtype).value := plain]
  }

  method RelayByIoctls(src: CuseTpm, dst: CuseTpm, blobtype: Word32, decrypt: bool, inputs: Inputs,
                       ghost plain: Bytes)
    returns (res: Rc)
    requires Relayable(src, dst, blobtype, decrypt, inputs, plain) && dst.accType != blobtype
    modifies src, dst
    ensures Relayed(dst, blobtype, plain, res) && src.txState == RwCommand
  {
    var blob, isEncrypted;
    res, blob, isEncrypted := src.FetchByIoctls(blobtype, decrypt, inputs);
    assert [] + blob == blob;
    res := dst.SendByPackets(blobtype, blob, isEncrypted);
  }

  /** Pieces of at most the given sizes, and one with what is left. */
  function Cut(blob: Bytes, sizes: seq<nat>): (r: seq<Bytes>)
    requires forall i :: 0 <= i < |sizes| ==> sizes[i] > 0
    ensures forall i :: 0 <= i < |r| ==> r[i] != []
    ensures Concat(r) == blob
  {
    if blob == [] then []
    else if sizes == [] || |blob| <= sizes[0] then
      assert [blob][1..] == [];
      [blob]
    else
      var rest := Cut(blob[sizes[0]..], sizes[1..]);
      assert ([blob[..sizes[0]]] + rest)[1..] == rest;
      [blob[..sizes[0]]] + rest
  }

  method RelayByReadAndWrite(src: CuseTpm, dst: CuseTpm, blobtype: Word32, decrypt: bool, inputs: Inputs,
                             readSizes: seq<nat>, writeSizes: seq<nat>, ghost plain: Bytes)
    returns (res: Rc)
    requires Relayable(src, dst, blobtype, decrypt, inputs, plain) && dst.accType != blobtype
    requires forall i :: 0 <= i < |readSizes| ==> readSizes[i] > 0
    requires forall i :: 0 <= i < |writeSizes| ==> writeSizes[i] > 0
    modifies src, dst
    ensures src.txState == RwCommand ==> Relayed(dst, blobtype, plain, res)
    ensures src.cached.Some?
    ensures STATE_BLOB_SIZE + Sum(readSizes) >= |src.cached.value.data| ==> Relayed(dst, blobtype, plain, res)
    ensures STATE_BLOB_SIZE + Sum(readSizes) > |src.cached.value.data| ==> src.txState == RwCommand
  {
    var blob, isEncrypted;
    res, blob, isEncrypted := src.FetchByReads(blobtype, decrypt, inputs, readSizes);
    assert |blob| == |src.cached.value.data| ==> blob == src.cached.value.data;
    res := dst.SendByWrites(blobtype, Cut(blob, writeSizes), isEncrypted);
  }
}
