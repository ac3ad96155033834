/** End to end: what a source has stored reaches TPMLIB_SetState at a destination with
    the same keys, over each of the ways a blob can travel. */
module Migration {
  import opened Bytes
  import opened SymmetricKey
  import opened StateBlob
  import opened CuseTransfer
  import SocketTransfer
  import CrashSafety
  import Tlv

  predicate Serializable(keys: Keys, decrypt: bool, ivs: Ivs, length: nat) {
    && keys.Valid() && IvFits(keys.file, ivs.file) && IvFits(keys.migration, ivs.migration)
    && BlobFits(keys, decrypt, ivs.file, ivs.migration, length)
  }

  /** GetStateBlob, which fails on data too long for its 32-bit length fields. */
  function GetBlob(c: Crypto, keys: Keys, decrypt: bool, ivs: Ivs, plain: Bytes): (r: Result<(Bytes, bool)>)
    requires c.Sound()
    ensures r.Ok? ==> |r.value.0| > 0
    ensures r.Err? ==> r.rc != Success
  {
    if !Serializable(keys, decrypt, ivs, |plain|) then Err(Fail)
    else
      Serializes(c, keys, decrypt, ivs, plain);
      GetStateBlob(c, keys, decrypt, ivs.file, ivs.migration, plain)
  }

  lemma Serializes(c: Crypto, keys: Keys, decrypt: bool, ivs: Ivs, plain: Bytes)
    requires c.Sound() && Serializable(keys, decrypt, ivs, |plain|)
    ensures var got := GetStateBlob(c, keys, decrypt, ivs.file, ivs.migration, plain);
            got.Ok? && |got.value.0| >= BLOB_HEADER_SIZE
  {
    SetAfterGet(c, keys, decrypt, ivs.file, ivs.migration, plain, 1);
  }

  /** StoreData up to the backend, which fails on data too long for its length fields. */
  function StoreFile(c: Crypto, key: EncryptionKey, iv: Option<Bytes>, plain: Bytes): (r: Result<Bytes>)
    requires c.Sound() && key.Valid()
    ensures r != Err(Success)
  {
    if !IvFits(key, iv) || !LayerFits(key, iv, |plain|) then Err(Fail)
    else StoredFile(c, key, iv, plain)
  }

  function SwtpmCodec(c: Crypto, keys: Keys): (r: Codec)
    requires c.Sound() && keys.Valid()
    ensures r.Sane()
  {
    Codec((decrypt, ivs, plain) => GetBlob(c, keys, decrypt, ivs, plain),
          (data, isEncrypted, blobtype: Word32) => SetStateBlob(c, keys, data, isEncrypted, blobtype),
          (iv, plain) => StoreFile(c, keys.file, iv, plain),
          file => LoadedFile(c, keys.file, file))
  }

  /** Setting undoes getting, for every combination of file key, migration key, key
      sizes, IVs present or not, and the request to decrypt. */
  lemma CodecRoundTrip(c: Crypto, keys: Keys, decrypt: bool, ivs: Ivs, plain: Bytes, blobtype: Word32)
    requires c.Sound() && Serializable(keys, decrypt, ivs, |plain|)
    requires BlobTypeToStateType(blobtype).Some?
    ensures var got := SwtpmCodec(c, keys).getBlob(decrypt, ivs, plain);
            && got.Ok?
            && SwtpmCodec(c, keys).setBlob(got.value.0, got.value.1, blobtype)
               == SetState(BlobTypeToStateType(blobtype).value, plain)
  {
    SetAfterGet(c, keys, decrypt, ivs.file, ivs.migration, plain, blobtype);
  }

  /** StoreData has stored `plain`, with some IV or none: the file is there, or, for the
      volatile state, will be when it is asked for. */
  ghost predicate HasStored(c: Crypto, keys: Keys, stored: map<Word32, Bytes>, blobtype: Word32, inputs: Inputs,
                            plain: Bytes)
  {
    && c.Sound() && keys.Valid()
    && if blobtype == BLOB_TYPE_VOLATILE then
         inputs.volatile == Ok(plain) && IvFits(keys.file, inputs.volatileIv)
         && LayerFits(keys.file, inputs.volatileIv, |plain|)
       else blobtype in stored && CrashSafety.FileOf(c, keys.file, stored[blobtype], plain)
  }

  lemma SourceOfStored(c: Crypto, keys: Keys, stored: map<Word32, Bytes>, blobtype: Word32, inputs: Inputs,
                       plain: Bytes)
    requires HasStored(c, keys, stored, blobtype, inputs, plain)
    ensures SwtpmCodec(c, keys).Source(stored, blobtype, inputs) == Ok(plain)
  {
    if blobtype == BLOB_TYPE_VOLATILE {
      LoadAfterStore(c, keys.file, inputs.volatileIv, plain);
    } else {
      CrashSafety.StoredFileIsStorable(c, keys.file, stored[blobtype], plain);
    }
  }

  /** A source that has stored a state of this type and has not cached an older one, and a
      destination with the same keys. */
  ghost predicate Ready(c: Crypto, keys: Keys, src: CuseTpm, dst: CuseTpm, blobtype: Word32, decrypt: bool,
                        inputs: Inputs, plain: Bytes)
    reads src, dst
  {
    && HasStored(c, keys, src.stored, blobtype, inputs, plain) && !src.IsLoaded(blobtype, decrypt)
    && src != dst && src.Valid() && dst.Valid() && inputs.Sane()
    && src.codec == SwtpmCodec(c, keys) && dst.codec == SwtpmCodec(c, keys)
    && BlobTypeToStateType(blobtype).Some? && Serializable(keys, decrypt, inputs.ivs, |plain|)
  }

  lemma ReadyIsRelayable(c: Crypto, keys: Keys, src: CuseTpm, dst: CuseTpm, blobtype: Word32, decrypt: bool,
                         inputs: Inputs, plain: Bytes)
    requires Ready(c, keys, src, dst, blobtype, decrypt, inputs, plain)
    ensures Relayable(src, dst, blobtype, decrypt, inputs, plain)
  {
    SourceOfStored(c, keys, src.stored, blobtype, inputs, plain);
    CodecRoundTrip(c, keys, decrypt, inputs.ivs, plain, blobtype);
  }

  /** Fetch by ioctls, send by packets. */
  method MigrateByIoctls(c: Crypto, keys: Keys, src: CuseTpm, dst: CuseTpm, blobtype: Word32, decrypt: bool,
                         inputs: Inputs, ghost plain: Bytes)
    returns (res: Rc)
    requires Ready(c, keys, src, dst, blobtype, decrypt, inputs, plain)
    requires dst.accType != blobtype
    modifies src, dst
    ensures Relayed(dst, blobtype, plain, res) && src.txState == RwCommand
  {
    ReadyIsRelayable(c, keys, src, dst, blobtype, decrypt, inputs, plain);
    res := RelayByIoctls(src, dst, blobtype, decrypt, inputs, plain);
  }

  /** Fetch by one ioctl and read()s, send by write()s; the sizes of the reads and of
      the writes have nothing to do with each other. */
  method MigrateByReadAndWrite(c: Crypto, keys: Keys, src: CuseTpm, dst: CuseTpm, blobtype: Word32, decrypt: bool,
                               inputs: Inputs, readSizes: seq<nat>, writeSizes: seq<nat>, ghost plain: Bytes)
    returns (res: Rc)
    requires Ready(c, keys, src, dst, blobtype, decrypt, inputs, plain)
    requires dst.accType != blobtype
    requires forall i :: 0 <= i < |readSizes| ==> readSizes[i] > 0
    requires forall i :: 0 <= i < |writeSizes| ==> writeSizes[i] > 0
    modifies src, dst
    ensures src.txState == RwCommand ==> Relayed(dst, blobtype, plain, res)
    ensures src.cached.Some?
    ensures STATE_BLOB_SIZE + Sum(readSizes) >= |src.cached.value.data| ==> Relayed(dst, blobtype, plain, res)
    ensures STATE_BLOB_SIZE + Sum(readSizes) > |src.cached.value.data| ==> src.txState == RwCommand
  {
    ReadyIsRelayable(c, keys, src, dst, blobtype, decrypt, inputs, plain);
    res := RelayByReadAndWrite(src, dst, blobtype, decrypt, inputs, readSizes, writeSizes, plain);
  }

  // ---- The control channel ----------------------------------------------------------------

  /** The response to CMD_GET_STATEBLOB. */
  datatype Response = Response(res: Rc, isEncrypted: bool, length: nat, data: Bytes)

  /** ctrlchannel_return_state: the state is serialized anew for every request, and the part
      from the offset on is sent; both length fields announce that part.  The volatile state
      is stored first and its file is removed afterwards. */
  method ReturnState(codec: Codec, stored: map<Word32, Bytes>, blobtype: Word32, decrypt: bool, offset: nat,
                     inputs: Inputs)
    returns (r: Response, stored': map<Word32, Bytes>)
    requires codec.Sane() && inputs.Sane()
    ensures r.length == |r.data| && stored' == codec.Remaining(stored, blobtype)
    ensures BlobTypeToStateType(blobtype).None? ==> r == Response(Fail, false, 0, [])
    ensures BlobTypeToStateType(blobtype).Some? ==>
      match codec.Snapshot(stored, blobtype, decrypt, inputs)
      case Err(rc) => r == Response(rc, false, 0, [])
      case Ok(got) => r.res == Success && r.isEncrypted == got.1 && r.data == got.0[Min(offset, |got.0|)..]
  {
    var res := if BlobTypeToStateType(blobtype).None? then Fail else Success;
    stored' := stored;
    if res == Success && blobtype == BLOB_TYPE_VOLATILE {
      match codec.StoreVolatile(stored', inputs) {
        case Ok(files) => stored' := files;
        case Err(rc) => res := rc;
      }
    }
    var blob, isEncrypted := [], false;
    if res == Success {
      match codec.GetStored(stored', blobtype, decrypt, inputs.ivs) {
        case Ok(got) => blob, isEncrypted := got.0, got.1;
        case Err(rc) => res := rc;
      }
    }
    if blobtype == BLOB_TYPE_VOLATILE {
      stored' := stored' - {blobtype};
    }
    var length := if offset < |blob| then |blob| - offset else 0;
    r := Response(res, isEncrypted, length, if length > 0 then blob[offset..] else []);
  }

  /** From a source to a destination over two control channels: whatever the split of the
      response into the first packet and later reads, the destination sets the plaintext. */
  method MigrateOverSocket(c: Crypto, keys: Keys, stored: map<Word32, Bytes>, blobtype: Word32, decrypt: bool,
                           inputs: Inputs, packet: nat, sizes: seq<nat>, ghost plain: Bytes)
    returns (outcome: SetOutcome)
    requires HasStored(c, keys, stored, blobtype, inputs, plain) && inputs.Sane()
    requires Serializable(keys, decrypt, inputs.ivs, |plain|) && BlobTypeToStateType(blobtype).Some?
    requires packet <= SocketTransfer.REQ_DATA_SIZE && forall i :: 0 <= i < |sizes| ==> sizes[i] > 0
    requires GetBlob(c, keys, decrypt, inputs.ivs, plain).Ok?
    requires |GetBlob(c, keys, decrypt, inputs.ivs, plain).value.0| <= SocketTransfer.MAX_STATE_SIZE
    ensures outcome == SetState(BlobTypeToStateType(blobtype).value, plain)
  {
    SourceOfStored(c, keys, stored, blobtype, inputs, plain);
    CodecRoundTrip(c, keys, decrypt, inputs.ivs, plain, blobtype);
    var response, stored' := ReturnState(SwtpmCodec(c, keys), stored, blobtype, decrypt, 0, inputs);
    var blob := SendOverSocket(response.data, packet, sizes);
    outcome := SetStateBlob(c, keys, blob, response.isEncrypted, blobtype);
  }

  /** Any split of a blob into a first packet and reads arrives whole. */
  method SendOverSocket(blob: Bytes, packet: nat, sizes: seq<nat>) returns (received: Bytes)
    requires |blob| <= SocketTransfer.MAX_STATE_SIZE && packet <= SocketTransfer.REQ_DATA_SIZE
    requires forall i :: 0 <= i < |sizes| ==> sizes[i] > 0
    ensures received == blob
  {
    var n := Min(packet, |blob|);
    var pieces := Cut(blob[n..], sizes);
    var input := seq(|pieces|, i requires 0 <= i < |pieces| => SocketTransfer.Received(pieces[i]));
    StreamOfPieces(pieces, input);
    assert blob == blob[..n] + blob[n..] && input[..|input|] == input;
    assert SocketTransfer.Covers(|blob|, blob[..n], input, |input|);
    var out, consumed := SocketTransfer.ReceiveState(|blob|, blob[..n], input);
    SocketTransfer.CoversIsUnique(|blob|, blob[..n], input, consumed, |input|);
    received := out.blob;
  }

  lemma {:induction false} StreamOfPieces(pieces: seq<Bytes>, input: seq<SocketTransfer.Read>)
    requires |input| == |pieces|
    requires forall i :: 0 <= i < |pieces| ==> pieces[i] != [] && input[i] == SocketTransfer.Received(pieces[i])
    ensures SocketTransfer.Stream(input) == Concat(pieces)
    decreases |pieces|
  {
    if pieces != [] {
      StreamOfPieces(pieces[1..], input[1..]);
    }
  }

  // ---- Fetching in parts over the control channel ------------------------------------------

  /** A second request, from offset k on, continues the first. */
  ghost predicate Continues(c: Crypto, keys: Keys, decrypt: bool, plain: Bytes, ivs: Ivs, ivs': Ivs, k: nat)
    requires c.Sound()
  {
    var got, got' := GetBlob(c, keys, decrypt, ivs, plain), GetBlob(c, keys, decrypt, ivs', plain);
    && got.Ok? && got'.Ok? && k <= |got.value.0| && k <= |got'.value.0|
    && got.value.0[..k] + got'.value.0[k..] == got.value.0
  }

  predicate EndsWith(b: Bytes, s: Bytes) {
    |s| <= |b| && b[|b| - |s|..] == s
  }

  lemma EndsWithAppend(a: Bytes, b: Bytes, s: Bytes)
    requires EndsWith(b, s)
    ensures EndsWith(a + b, s)
  {
    assert (a + b)[|a + b| - |s|..] == b[|b| - |s|..];
  }

  lemma {:induction false} EncodingEndsWith(es: seq<Tlv.Entry>, s: Bytes)
    requires es != [] && EndsWith(es[|es| - 1].value, s)
    ensures EndsWith(Tlv.Encode(es), s)
  {
    if |es| == 1 {
      var e := es[0];
      EndsWithAppend(Be16(e.tag) + Be32(|e.value|), e.value, s);
      assert es[1..] == [] && Tlv.Encode(es) == Tlv.EncodeOne(e) + [] == Tlv.EncodeOne(e);
    } else {
      assert es[1..][|es| - 2] == es[|es| - 1];
      EncodingEndsWith(es[1..], s);
      EndsWithAppend(Tlv.EncodeOne(es[0]), Tlv.Encode(es[1..]), s);
    }
  }

  /** The last bytes of an encrypted layer are its IV. */
  lemma LayerEndsWithIv(c: Crypto, layer: Layer, key: EncryptionKey, iv: Bytes, data: Bytes)
    requires c.Sound() && key.Valid() && key.Present() && IvFits(key, Some(iv)) && LayerFits(key, Some(iv), |data|)
    ensures EndsWith(LayerBytes(c, layer, key, Some(iv), data).value, iv)
  {
    LayerEncodes(c, layer, key, Some(iv), data);
    EncodingEndsWith(LayerEntries(c, layer, key, Some(iv), data).value, iv);
  }

  lemma PlainLayerEndsWith(c: Crypto, layer: Layer, key: EncryptionKey, iv: Option<Bytes>, data: Bytes, s: Bytes)
    requires c.Sound() && key.Valid() && !key.Present() && IvFits(key, iv) && LayerFits(key, iv, |data|)
    requires EndsWith(data, s)
    ensures EndsWith(LayerBytes(c, layer, key, iv, data).value, s)
  {
    EncodingEndsWith(LayerEntries(c, layer, key, iv, data).value, s);
  }

  /** The IV of the outermost encrypted layer is in the clear at the end of the blob. */
  ghost predicate OutermostIv(keys: Keys, decrypt: bool, ivs: Ivs, iv: Bytes) {
    if keys.migration.Present() then ivs.migration == Some(iv)
    else keys.Inner(decrypt).Present() && ivs.file == Some(iv)
  }

  lemma BlobEndsWithIv(c: Crypto, keys: Keys, decrypt: bool, ivs: Ivs, plain: Bytes, iv: Bytes)
    requires c.Sound() && Serializable(keys, decrypt, ivs, |plain|) && OutermostIv(keys, decrypt, ivs, iv)
    ensures var got := GetBlob(c, keys, decrypt, ivs, plain);
            got.Ok? && EndsWith(got.value.0, iv) && |got.value.0| >= BLOB_HEADER_SIZE + |plain| + |iv|
  {
    var key := keys.Inner(decrypt);
    var inner := LayerBytes(c, FileLayer, key, ivs.file, plain).value;
    var outer := LayerBytes(c, MigrationLayer, keys.migration, ivs.migration, inner).value;
    if keys.migration.Present() {
      LayerEndsWithIv(c, MigrationLayer, keys.migration, iv, inner);
    } else {
      LayerEndsWithIv(c, FileLayer, key, iv, plain);
      PlainLayerEndsWith(c, MigrationLayer, keys.migration, ivs.migration, inner, iv);
    }
    HeaderEndsWith(outer, BlobFlags(keys, decrypt), iv);
  }

  lemma HeaderEndsWith(data: Bytes, flags: Word16, s: Bytes)
    requires BLOB_HEADER_SIZE + |data| < 0x1_0000_0000 && EndsWith(data, s)
    ensures EndsWith(PrependHeader(data, flags), s) && |PrependHeader(data, flags)| == BLOB_HEADER_SIZE + |data|
  {
    var file := PrependHeader(data, flags);
    HeaderRoundTrip(data, flags);
    assert file == file[..BLOB_HEADER_SIZE] + data;
    EndsWithAppend(file[..BLOB_HEADER_SIZE], data, s);
  }

  /** Without any key a blob does not depend on IVs. */
  lemma PlainBlobIgnoresIvs(c: Crypto, keys: Keys, decrypt: bool, ivs: Ivs, ivs': Ivs, plain: Bytes)
    requires c.Sound() && Serializable(keys, decrypt, ivs, |plain|) && Serializable(keys, decrypt, ivs', |plain|)
    requires !keys.Inner(decrypt).Present() && !keys.migration.Present()
    ensures var got := GetBlob(c, keys, decrypt, ivs, plain);
            && got.Ok? && got == GetBlob(c, keys, decrypt, ivs', plain)
            && |got.value.0| >= BLOB_HEADER_SIZE + |plain|
  {
    var key := keys.Inner(decrypt);
    var inner := LayerBytes(c, FileLayer, key, ivs.file, plain);
    assert inner == LayerBytes(c, FileLayer, key, ivs'.file, plain);
    var outer := LayerBytes(c, MigrationLayer, keys.migration, ivs.migration, inner.value);
    assert outer == LayerBytes(c, MigrationLayer, keys.migration, ivs'.migration, inner.value);
    HeaderRoundTrip(outer.value, BlobFlags(keys, decrypt));
  }

  /** IVs of full length with one byte repeated. */
  function SampleIvs(b: Byte): Ivs {
    Ivs(Some(Repeat(b, AES256_KEY_SIZE)), Some(Repeat(b, AES256_KEY_SIZE)))
  }

  /** Over the control channel a request at a later offset continues the one before it,
      whatever IVs are drawn, if and only if no layer of the blob is encrypted: every
      request serializes the state anew. */
  lemma FetchContinuesIff(c: Crypto, keys: Keys, decrypt: bool, plain: Bytes, k: nat)
    requires c.Sound() && Serializable(keys, decrypt, SampleIvs(0), |plain|) && k <= BLOB_HEADER_SIZE + |plain|
    ensures (forall ivs: Ivs, ivs': Ivs ::
               Serializable(keys, decrypt, ivs, |plain|) && Serializable(keys, decrypt, ivs', |plain|)
               ==> Continues(c, keys, decrypt, plain, ivs, ivs', k))
            <==> !keys.Inner(decrypt).Present() && !keys.migration.Present()
  {
    if keys.Inner(decrypt).Present() || keys.migration.Present() {
      EncryptedFetchBreaks(c, keys, decrypt, plain, k);
    } else {
      forall ivs: Ivs, ivs': Ivs |
        Serializable(keys, decrypt, ivs, |plain|) && Serializable(keys, decrypt, ivs', |plain|)
        ensures Continues(c, keys, decrypt, plain, ivs, ivs', k)
      {
        PlainBlobIgnoresIvs(c, keys, decrypt, ivs, ivs', plain);
        var blob := GetBlob(c, keys, decrypt, ivs, plain).value.0;
        assert blob[..k] + blob[k..] == blob;
      }
    }
  }

  lemma EncryptedFetchBreaks(c: Crypto, keys: Keys, decrypt: bool, plain: Bytes, k: nat)
    requires c.Sound() && Serializable(keys, decrypt, SampleIvs(0), |plain|) && k <= BLOB_HEADER_SIZE + |plain|
    requires keys.Inner(decrypt).Present() || keys.migration.Present()
    ensures Serializable(keys, decrypt, SampleIvs(1), |plain|)
    ensures !Continues(c, keys, decrypt, plain, SampleIvs(0), SampleIvs(1), k)
  {
    var iv, iv' := Repeat(0, AES256_KEY_SIZE), Repeat(1, AES256_KEY_SIZE);
    assert iv[0] != iv'[0];
    OtherIvBreaks(c, keys, decrypt, plain, SampleIvs(0), SampleIvs(1), iv, iv', k);
  }

  /** Two requests that drew different IVs for the outermost encrypted layer. */
  lemma OtherIvBreaks(c: Crypto, keys: Keys, decrypt: bool, plain: Bytes, ivs: Ivs, ivs': Ivs, iv: Bytes, iv': Bytes,
                      k: nat)
    requires c.Sound() && Serializable(keys, decrypt, ivs, |plain|) && Serializable(keys, decrypt, ivs', |plain|)
    requires OutermostIv(keys, decrypt, ivs, iv) && OutermostIv(keys, decrypt, ivs', iv')
    requires |iv| == |iv'| && iv != iv' && k <= BLOB_HEADER_SIZE + |plain|
    ensures !Continues(c, keys, decrypt, plain, ivs, ivs', k)
  {
    BlobEndsWithIv(c, keys, decrypt, ivs, plain, iv);
    BlobEndsWithIv(c, keys, decrypt, ivs', plain, iv');
    SplicedEnding(GetBlob(c, keys, decrypt, ivs, plain).value.0, GetBlob(c, keys, decrypt, ivs', plain).value.0,
                  k, iv, iv');
  }

  /** Bytes that end differently cannot be spliced before their endings. */
  lemma SplicedEnding(b: Bytes, b': Bytes, k: nat, s: Bytes, s': Bytes)
    requires EndsWith(b, s) && EndsWith(b', s') && |s| == |s'| && s != s' && k + |s'| <= |b'| && k <= |b|
    ensures b[..k] + b'[k..] != b
  {
    assert EndsWith(b'[k..], s') by {
      assert b'[k..][|b'[k..]| - |s'|..] == b'[|b'| - |s'|..];
    }
    EndsWithAppend(b[..k], b'[k..], s');
  }
}
