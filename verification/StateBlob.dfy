/** The state file and state blob formats of src/swtpm/swtpm_nvstore.c: blob header,
    encrypt-then-HMAC layers, and the nested file-key and migration-key layers. */
module StateBlob {
  import opened Bytes
  import opened SymmetricKey
  import opened Tlv

  // ---- Keys -----------------------------------------------------------------

  datatype EncryptionMode = ModeUnknown | ModeAesCbc

  datatype EncryptionKey = EncryptionKey(mode: EncryptionMode, key: Bytes)
  {
    predicate Present() { |key| > 0 }

    predicate Sized() { Present() ==> IsKeySize(|key|) }

    /** A slot is empty or holds a key that KeyParamCheck let through. */
    predicate Valid() { Sized() && (Present() ==> mode == ModeAesCbc) }
  }

  const NO_KEY := EncryptionKey(ModeUnknown, [])

  function KeyParamCheck(keylen: nat, mode: EncryptionMode): Rc {
    var rc := if IsKeySize(keylen) then Success else BadKeyProperty;
    match mode
    case ModeAesCbc => rc
    case ModeUnknown => BadMode
  }

  /** Set_FileKey and Set_MigrationKey: a refused key leaves the slot as it was. */
  function SetKey(slot: EncryptionKey, key: Bytes, mode: EncryptionMode): (r: (EncryptionKey, Rc))
    requires slot.Valid()
    ensures r.0.Valid()
    ensures r.1 == Success <==> IsKeySize(|key|) && mode == ModeAesCbc
    ensures r.1 == Success ==> r.0.Present() && r.0.key == key
    ensures r.1 != Success ==> r.0 == slot
  {
    var rc := KeyParamCheck(|key|, mode);
    (if rc == Success then EncryptionKey(mode, key) else slot, rc)
  }

  // ---- Header ---------------------------------------------------------------

  const BLOB_HEADER_VERSION := 2
  const BLOB_HEADER_SIZE := 10

  const FLAG_ENCRYPTED: Word16 := 0x01
  const FLAG_MIGRATION_ENCRYPTED: Word16 := 0x02
  const FLAG_MIGRATION_DATA: Word16 := 0x04
  const FLAG_ENCRYPTED_256BIT_KEY: Word16 := 0x08
  const FLAG_MIGRATION_256BIT_KEY: Word16 := 0x10

  /** Test of a single-bit flag, the C expression `flags & bit`. */
  predicate HasFlag(flags: Word16, bit: Word16)
    requires bit in {0x01, 0x02, 0x04, 0x08, 0x10}
  {
    flags / bit % 2 == 1
  }

  datatype Header = Header(version: Byte, flags: Word16)

  function PrependHeader(data: Bytes, flags: Word16): (r: Bytes)
    requires BLOB_HEADER_SIZE + |data| < 0x1_0000_0000
  {
    [BLOB_HEADER_VERSION, 1] + Be16(BLOB_HEADER_SIZE) + Be16(flags)
    + Be32(BLOB_HEADER_SIZE + |data|) + data
  }

  /** The data offset of the original is always BLOB_HEADER_SIZE on success. */
  function CheckHeader(data: Bytes): (r: Result<Header>)
    ensures r.Ok? ==> |data| >= BLOB_HEADER_SIZE
  {
    if |data| < BLOB_HEADER_SIZE then Err(BadParameter)
    else if FromBe32(data[6..10]) != |data| then Err(BadParameter)
    else if data[1] > BLOB_HEADER_VERSION then Err(BadVersion)
    else if FromBe16(data[2..4]) != BLOB_HEADER_SIZE then Err(BadDatasize)
    else Ok(Header(data[0], FromBe16(data[4..6])))
  }

  // ---- One layer -------------------------------------------------------------

  /** The two layers of a blob use different tags and different 256-bit flags. */
  datatype Layer = FileLayer | MigrationLayer
  {
    function PlainTag(): Word16 {
      if FileLayer? then TAG_DATA else TAG_MIGRATION_DATA
    }

    function EncryptedTag(): Word16 {
      if FileLayer? then TAG_ENCRYPTED_DATA else TAG_ENCRYPTED_MIGRATION_DATA
    }

    function IvecTag(): Word16 {
      if FileLayer? then TAG_IVEC_ENCRYPTED_DATA else TAG_IVEC_ENCRYPTED_MIGRATION_DATA
    }

    function EncryptedFlag(): Word16 {
      if FileLayer? then FLAG_ENCRYPTED else FLAG_MIGRATION_ENCRYPTED
    }

    function LongKeyFlag(): Word16 {
      if FileLayer? then FLAG_ENCRYPTED_256BIT_KEY else FLAG_MIGRATION_256BIT_KEY
    }

    /** The flags a writer sets for this layer. */
    function Flags(key: EncryptionKey): Word16 {
      if key.Present() then EncryptedFlag() + (if |key.key| == AES256_KEY_SIZE then LongKeyFlag() else 0)
      else 0
    }
  }

  /** An IV as RollAndSetGlobalIvec leaves it: at least key-length bytes, or none at
      all if the allocation failed. */
  predicate IvFits(key: EncryptionKey, iv: Option<Bytes>) {
    iv.Some? ==> |key.key| <= |iv.value| <= AES256_KEY_SIZE
  }

  /** The global IV buffer g_ivec, which grows to the longest key and never shrinks. */
  class GlobalIvec {
    var ivec: Bytes

    ghost predicate Valid()
      reads this
    {
      |ivec| == 0 || IsKeySize(|ivec|)
    }

    constructor ()
      ensures Valid() && ivec == []
    {
      ivec := [];
    }

    /** RollAndSetGlobalIvec: fresh random bytes, at least as many as the key has, or no IV
        if the buffer had to grow and could not. */
    method Roll(key: EncryptionKey, canGrow: bool, random: nat -> Bytes) returns (iv: Option<Bytes>)
      requires Valid() && key.Valid() && key.Present() && forall n :: |random(n)| == n
      modifies this
      ensures Valid() && |ivec| >= |old(ivec)|
      ensures IvFits(key, iv)
      ensures iv.None? <==> |old(ivec)| < |key.key| && !canGrow
      ensures iv.Some? ==> iv.value == ivec == random(|ivec|)
    {
      var n := |ivec|;
      if n < |key.key| {
        if !canGrow {
          return None;
        }
        n := |key.key|;
      }
      ivec := random(n);
      iv := Some(ivec);
    }
  }

  function IvBytes(iv: Option<Bytes>): Bytes {
    if iv.Some? then iv.value else []
  }

  /** The number of bytes one layer around `length` bytes encodes to. */
  function LayerLength(key: EncryptionKey, iv: Option<Bytes>, length: nat): (r: nat)
    requires key.Sized()
    ensures r >= length + HEADER_SIZE
    ensures key.Present() ==> r >= length + PadLength(length, |key.key|) + HEADER_SIZE
  {
    if key.Present() then
      HEADER_SIZE + length + PadLength(length, |key.key|) + HEADER_SIZE + 32
      + (if iv.Some? then HEADER_SIZE + |iv.value| else 0)
    else HEADER_SIZE + length
  }

  /** Sizes for which header and layer stay within the 32-bit total length. */
  predicate LayerFits(key: EncryptionKey, iv: Option<Bytes>, length: nat)
    requires key.Sized()
  {
    BLOB_HEADER_SIZE + LayerLength(key, iv, length) < 0x1_0000_0000
  }

  function EncryptData(c: Crypto, layer: Layer, key: EncryptionKey, iv: Option<Bytes>, data: Bytes)
    : (r: Result<seq<Entry>>)
    requires c.Sound() && key.Sized() && IvFits(key, iv) && LayerFits(key, iv, |data|)
  {
    if !key.Present() then Ok([])
    else
      match key.mode
      case ModeUnknown => Err(BadMode)
      case ModeAesCbc =>
        var sealed :- Encrypt(c, key.key, iv, data);
        Ok(SealedEntries(layer, sealed, c.hmac(key.key, sealed + IvBytes(iv)), iv))
  }

  /** The entries in the order of the td array: data, HMAC, and the IV if there is one. */
  function SealedEntries(layer: Layer, sealed: Bytes, mac: Bytes, iv: Option<Bytes>): seq<Entry>
    requires |sealed| < 0x1_0000_0000 && |mac| == 32 && (iv.Some? ==> |iv.value| <= AES256_KEY_SIZE)
  {
    [RawEntry.Entry(layer.EncryptedTag(), sealed), RawEntry.Entry(TAG_HMAC, mac)]
    + if iv.Some? then [RawEntry.Entry(layer.IvecTag(), iv.value)] else []
  }

  /** The TLV entries of a layer: encrypted if there is a key, else one plain entry. */
  function LayerEntries(c: Crypto, layer: Layer, key: EncryptionKey, iv: Option<Bytes>, data: Bytes)
    : (r: Result<seq<Entry>>)
    requires c.Sound() && key.Valid() && IvFits(key, iv) && LayerFits(key, iv, |data|)
  {
    if key.Present() then EncryptData(c, layer, key, iv, data)
    else Ok([RawEntry.Entry(layer.PlainTag(), data)])
  }

  function CheckHmac(c: Crypto, mac: Bytes, sealed: Bytes, key: Bytes, iv: Option<Bytes>): Rc {
    if |mac| < 32 then Fail
    else if mac[..32] != c.hmac(key, sealed + IvBytes(iv)) then DecryptError
    else Success
  }

  function CheckHash(c: Crypto, input: Bytes): Result<Bytes> {
    if |input| < 32 then Err(Fail)
    else if input[..32] != c.sha256(input[32..]) then Err(Fail)
    else Ok(input[32..])
  }

  function DecryptData(c: Crypto, layer: Layer, key: EncryptionKey, data: Bytes, hdr: Header): Result<Bytes>
    requires key.Sized()
  {
    if !key.Present() then Err(Fail)
    else if key.mode == ModeUnknown then Err(BadMode)
    else if hdr.version == 1 then
      var plain :- Decrypt(c, key.key, None, data);
      CheckHash(c, plain)
    else if hdr.version == 2 then
      var keylen := if HasFlag(hdr.flags, layer.LongKeyFlag()) then AES256_KEY_SIZE else AES128_KEY_SIZE;
      if keylen != |key.key| then Err(BadKeyProperty)
      else
        var mac, sealed := Find(data, TAG_HMAC), Find(data, layer.EncryptedTag());
        if mac.None? || sealed.None? then Err(Fail)
        else
          var iv := Find(data, layer.IvecTag());
          var rc := CheckHmac(c, mac.value, sealed.value, key.key, iv);
          if rc != Success then Err(rc) else Decrypt(c, key.key, iv, sealed.value)
    else Err(Fail)
  }

  function GetPlainData(layer: Layer, data: Bytes, version: Byte): Result<Bytes> {
    if version == 1 then Ok(data)
    else if version == 2 then
      var found := Find(data, layer.PlainTag());
      if found.Some? then Ok(found.value) else Err(Fail)
    else Err(Fail)
  }

  /** The encoded layer, which never fails and always has the precomputed length. */
  function LayerBytes(c: Crypto, layer: Layer, key: EncryptionKey, iv: Option<Bytes>, data: Bytes)
    : (r: Result<Bytes>)
    requires c.Sound() && key.Valid() && IvFits(key, iv) && LayerFits(key, iv, |data|)
    ensures r.Ok? && |r.value| == LayerLength(key, iv, |data|)
  {
    LayerEncodes(c, layer, key, iv, data);
    Ok(Encode(LayerEntries(c, layer, key, iv, data).value))
  }

  // ---- State files: StoreData and LoadData -----------------------------------

  /** The bytes StoreData_Intern hands to the backend. */
  function StoredFile(c: Crypto, key: EncryptionKey, iv: Option<Bytes>, data: Bytes): Result<Bytes>
    requires c.Sound() && key.Valid() && IvFits(key, iv) && LayerFits(key, iv, |data|)
  {
    var body :- LayerBytes(c, FileLayer, key, iv, data);
    Ok(PrependHeader(body, FileLayer.Flags(key)))
  }

  /** What LoadData makes of the bytes the backend loaded. */
  function LoadedFile(c: Crypto, key: EncryptionKey, file: Bytes): Result<Bytes>
    requires key.Valid()
  {
    var hdr :- CheckHeader(file);
    var body := file[BLOB_HEADER_SIZE..];
    if key.Present() then DecryptData(c, FileLayer, key, body, hdr)
    else GetPlainData(FileLayer, body, hdr.version)
  }

  // ---- Migration blobs: GetStateBlob and SetStateBlob ------------------------

  datatype Keys = Keys(file: EncryptionKey, migration: EncryptionKey)
  {
    predicate Valid() { file.Valid() && migration.Valid() }

    /** The key of the inner layer: none if the caller asked for decrypted state. */
    function Inner(decrypt: bool): EncryptionKey {
      if decrypt then NO_KEY else file
    }
  }

  predicate BlobFits(keys: Keys, decrypt: bool, iv: Option<Bytes>, migrationIv: Option<Bytes>, length: nat)
    requires keys.Valid()
  {
    && LayerFits(keys.Inner(decrypt), iv, length)
    && LayerFits(keys.migration, migrationIv, LayerLength(keys.Inner(decrypt), iv, length))
  }

  function BlobFlags(keys: Keys, decrypt: bool): Word16 {
    FileLayer.Flags(keys.Inner(decrypt)) + MigrationLayer.Flags(keys.migration) + FLAG_MIGRATION_DATA
  }

  /** GetStateBlob once LoadData returned `plain`; the second component is
      *is_encrypted. */
  function GetStateBlob(c: Crypto, keys: Keys, decrypt: bool, iv: Option<Bytes>,
                        migrationIv: Option<Bytes>, plain: Bytes): Result<(Bytes, bool)>
    requires c.Sound() && keys.Valid()
    requires IvFits(keys.file, iv) && IvFits(keys.migration, migrationIv)
    requires BlobFits(keys, decrypt, iv, migrationIv, |plain|)
  {
    var key := keys.Inner(decrypt);
    var inner :- LayerBytes(c, FileLayer, key, iv, plain);
    var outer :- LayerBytes(c, MigrationLayer, keys.migration, migrationIv, inner);
    Ok((PrependHeader(outer, BlobFlags(keys, decrypt)), key.Present()))
  }

  datatype StateType = Permanent | Volatile | SaveState

  function BlobTypeToStateType(blobtype: Word32): Option<StateType> {
    match blobtype
    case 1 => Some(Permanent)
    case 2 => Some(Volatile)
    case 3 => Some(SaveState)
    case _ => None
  }

  /** Outcome of SetStateBlob: refused, or TPMLIB_SetState called with a payload. */
  datatype SetOutcome = Refused(rc: Rc) | SetState(st: StateType, payload: Bytes)

  function OpenLayer(c: Crypto, layer: Layer, key: EncryptionKey, encrypted: bool, hdr: Header, data: Bytes)
    : Result<Bytes>
    requires key.Valid()
  {
    if encrypted then
      if !key.Present() then Err(KeyNotFound) else DecryptData(c, layer, key, data, hdr)
    else GetPlainData(layer, data, hdr.version)
  }

  function OpenBlob(c: Crypto, keys: Keys, hdr: Header, isEncrypted: bool, body: Bytes): Result<Bytes>
    requires keys.Valid()
  {
    var migrationEncrypted := HasFlag(hdr.flags, FLAG_MIGRATION_ENCRYPTED);
    var inner :- OpenLayer(c, MigrationLayer, keys.migration, migrationEncrypted, hdr, body);
    var fileEncrypted := isEncrypted || HasFlag(hdr.flags, FLAG_ENCRYPTED);
    OpenLayer(c, FileLayer, keys.file, fileEncrypted, hdr, inner)
  }

  function SetStateBlob(c: Crypto, keys: Keys, data: Bytes, isEncrypted: bool, blobtype: Word32): SetOutcome
    requires keys.Valid()
  {
    var st := BlobTypeToStateType(blobtype);
    if st.None? then Refused(BadParameter)
    else if |data| == 0 then SetState(st.value, [])
    else
      match CheckHeader(data)
      case Err(rc) => Refused(rc)
      case Ok(hdr) =>
        if |data| == BLOB_HEADER_SIZE then SetState(st.value, [])
        else
          match OpenBlob(c, keys, hdr, isEncrypted, data[BLOB_HEADER_SIZE..])
          case Err(rc) => Refused(rc)
          case Ok(plain) => SetState(st.value, plain)
  }

  // ---- Header properties -------------------------------------------------------

  lemma HeaderRoundTrip(data: Bytes, flags: Word16)
    requires BLOB_HEADER_SIZE + |data| < 0x1_0000_0000
    ensures var file := PrependHeader(data, flags);
            && |file| == BLOB_HEADER_SIZE + |data|
            && CheckHeader(file) == Ok(Header(BLOB_HEADER_VERSION, flags))
            && file[BLOB_HEADER_SIZE..] == data
  {
    var file := PrependHeader(data, flags);
    assert file[2..4] == Be16(BLOB_HEADER_SIZE);
    assert file[4..6] == Be16(flags);
    assert file[6..10] == Be32(BLOB_HEADER_SIZE + |data|);
    Be32RoundTrip(BLOB_HEADER_SIZE + |data|);
  }

  /** Every strict prefix of a file that passes the header check is rejected by it:
      a torn write is always detected. */
  lemma StrictPrefixRejected(file: Bytes, k: nat)
    requires CheckHeader(file).Ok? && k < |file|
    ensures CheckHeader(file[..k]) == Err(BadParameter)
  {
    if k >= BLOB_HEADER_SIZE {
      assert file[..k][6..10] == file[6..10];
    }
  }

  // ---- Round trip of one layer ---------------------------------------------------

  /** A layer always encodes, to exactly `LayerLength` bytes. */
  lemma LayerEncodes(c: Crypto, layer: Layer, key: EncryptionKey, iv: Option<Bytes>, data: Bytes)
    requires c.Sound() && key.Valid() && IvFits(key, iv) && LayerFits(key, iv, |data|)
    ensures var es := LayerEntries(c, layer, key, iv, data);
            es.Ok? && |Encode(es.value)| == LayerLength(key, iv, |data|)
  {
    if key.Present() {
      EncryptDataEncodes(c, layer, key, iv, data);
    } else {
      LengthOfEntries(LayerEntries(c, layer, key, iv, data).value);
    }
  }

  lemma EncryptDataEncodes(c: Crypto, layer: Layer, key: EncryptionKey, iv: Option<Bytes>, data: Bytes)
    requires c.Sound() && key.Valid() && key.Present() && IvFits(key, iv) && LayerFits(key, iv, |data|)
    ensures var es := EncryptData(c, layer, key, iv, data);
            es.Ok? && |Encode(es.value)| == LayerLength(key, iv, |data|)
  {
    DecryptInvertsEncrypt(c, key.key, iv, data);
    LengthOfEntries(EncryptData(c, layer, key, iv, data).value);
  }

  lemma LengthOfEntries(es: seq<Entry>)
    requires 1 <= |es| <= 3
    ensures |es| == 1 ==> |Encode(es)| == |EncodeOne(es[0])|
    ensures |es| == 2 ==> |Encode(es)| == |EncodeOne(es[0])| + |EncodeOne(es[1])|
    ensures |es| == 3 ==> |Encode(es)| == |EncodeOne(es[0])| + |EncodeOne(es[1])| + |EncodeOne(es[2])|
  {
    if |es| > 1 {
      assert es[1..][0] == es[1];
      LengthOfEntries(es[1..]);
    }
  }

  lemma FirstOfEntries(es: seq<Entry>, tag: Word16)
    requires 1 <= |es| <= 3
    ensures FirstWithTag(es, tag) ==
            if es[0].tag == tag then Some(es[0].value)
            else if |es| > 1 && es[1].tag == tag then Some(es[1].value)
            else if |es| > 2 && es[2].tag == tag then Some(es[2].value)
            else None
  {
    if |es| > 1 {
      assert es[1..][0] == es[1];
      if |es| > 2 {
        assert es[1..][1..] == es[2..];
      }
    }
  }

  /** Search in a whole encoding. */
  lemma FindEncoded(es: seq<Entry>, tag: Word16)
    ensures Find(Encode(es), tag) == FirstWithTag(es, tag)
  {
    FindInEncoding(es, [], tag);
    assert Encode(es) + [] == Encode(es);
  }

  /** The three searches that DecryptData makes, on entries that EncryptData made. */
  lemma SealedEntriesFound(layer: Layer, sealed: Bytes, mac: Bytes, iv: Option<Bytes>)
    requires |sealed| < 0x1_0000_0000 && |mac| == 32 && (iv.Some? ==> |iv.value| <= AES256_KEY_SIZE)
    ensures var data := Encode(SealedEntries(layer, sealed, mac, iv));
            && Find(data, TAG_HMAC) == Some(mac)
            && Find(data, layer.EncryptedTag()) == Some(sealed)
            && Find(data, layer.IvecTag()) == iv
  {
    var es := SealedEntries(layer, sealed, mac, iv);
    FindEncoded(es, TAG_HMAC);
    FirstOfEntries(es, TAG_HMAC);
    FindEncoded(es, layer.EncryptedTag());
    FirstOfEntries(es, layer.EncryptedTag());
    FindEncoded(es, layer.IvecTag());
    FirstOfEntries(es, layer.IvecTag());
  }

  lemma DecryptFound(c: Crypto, layer: Layer, key: EncryptionKey, data: Bytes, flags: Word16,
                     sealed: Bytes, iv: Option<Bytes>)
    requires c.Sound() && key.Valid() && key.Present()
    requires HasFlag(flags, layer.LongKeyFlag()) <==> |key.key| == AES256_KEY_SIZE
    requires Find(data, TAG_HMAC) == Some(c.hmac(key.key, sealed + IvBytes(iv)))
    requires Find(data, layer.EncryptedTag()) == Some(sealed) && Find(data, layer.IvecTag()) == iv
    ensures DecryptData(c, layer, key, data, Header(2, flags)) == Decrypt(c, key.key, iv, sealed)
  {
    var mac := c.hmac(key.key, sealed + IvBytes(iv));
    assert mac[..32] == mac;
  }

  lemma EncryptedRoundTrip(c: Crypto, layer: Layer, key: EncryptionKey, iv: Option<Bytes>, data: Bytes, flags: Word16)
    requires c.Sound() && key.Valid() && key.Present() && IvFits(key, iv) && LayerFits(key, iv, |data|)
    requires HasFlag(flags, layer.LongKeyFlag()) <==> |key.key| == AES256_KEY_SIZE
    ensures var es := EncryptData(c, layer, key, iv, data);
            es.Ok? && DecryptData(c, layer, key, Encode(es.value), Header(2, flags)) == Ok(data)
  {
    DecryptInvertsEncrypt(c, key.key, iv, data);
    var sealed := Encrypt(c, key.key, iv, data).value;
    var mac := c.hmac(key.key, sealed + IvBytes(iv));
    SealedEntriesFound(layer, sealed, mac, iv);
    DecryptFound(c, layer, key, Encode(SealedEntries(layer, sealed, mac, iv)), flags, sealed, iv);
  }

  /** Opening a layer gives back what was put in, whichever key the layer has. */
  lemma LayerRoundTrip(c: Crypto, layer: Layer, key: EncryptionKey, iv: Option<Bytes>, data: Bytes, flags: Word16)
    requires c.Sound() && key.Valid() && IvFits(key, iv) && LayerFits(key, iv, |data|)
    requires key.Present() ==> (HasFlag(flags, layer.LongKeyFlag()) <==> |key.key| == AES256_KEY_SIZE)
    ensures var es := LayerEntries(c, layer, key, iv, data);
            && es.Ok?
            && OpenLayer(c, layer, key, key.Present(), Header(2, flags), Encode(es.value)) == Ok(data)
  {
    if key.Present() {
      EncryptedRoundTrip(c, layer, key, iv, data, flags);
    } else {
      FindEncoded(LayerEntries(c, layer, key, iv, data).value, layer.PlainTag());
    }
  }

  // ---- Main results -----------------------------------------------------------------

  /** A stored file loads back, with the same key, to the stored data: without a key,
      with a 128-bit or a 256-bit key, and with any IV or none. */
  lemma LoadAfterStore(c: Crypto, key: EncryptionKey, iv: Option<Bytes>, data: Bytes)
    requires c.Sound() && key.Valid() && IvFits(key, iv) && LayerFits(key, iv, |data|)
    ensures StoredFile(c, key, iv, data).Ok?
    ensures LoadedFile(c, key, StoredFile(c, key, iv, data).value) == Ok(data)
  {
    var flags := FileLayer.Flags(key);
    var body := LayerBytes(c, FileLayer, key, iv, data).value;
    if key.Present() {
      FileFlagsAreDistinct(key);
    }
    LayerOpens(c, FileLayer, key, iv, data, flags, body);
    LoadHeadered(c, key, body, flags);
  }

  lemma FileFlagsAreDistinct(key: EncryptionKey)
    requires key.Valid() && key.Present()
    ensures HasFlag(FileLayer.Flags(key), FLAG_ENCRYPTED_256BIT_KEY) <==> |key.key| == AES256_KEY_SIZE
  {
  }

  lemma LoadHeadered(c: Crypto, key: EncryptionKey, body: Bytes, flags: Word16)
    requires key.Valid() && BLOB_HEADER_SIZE + |body| < 0x1_0000_0000
    ensures LoadedFile(c, key, PrependHeader(body, flags)) ==
            OpenLayer(c, FileLayer, key, key.Present(), Header(BLOB_HEADER_VERSION, flags), body)
  {
    HeaderRoundTrip(body, flags);
  }

  /** No strict prefix of a stored file loads, whatever the key it is loaded with. */
  lemma TornFileDoesNotLoad(c: Crypto, key: EncryptionKey, iv: Option<Bytes>, data: Bytes,
                            key': EncryptionKey, k: nat)
    requires c.Sound() && key.Valid() && IvFits(key, iv) && LayerFits(key, iv, |data|) && key'.Valid()
    requires StoredFile(c, key, iv, data).Ok? && k < |StoredFile(c, key, iv, data).value|
    ensures LoadedFile(c, key', StoredFile(c, key, iv, data).value[..k]) == Err(BadParameter)
  {
    HeaderRoundTrip(LayerBytes(c, FileLayer, key, iv, data).value, FileLayer.Flags(key));
    StrictPrefixRejected(StoredFile(c, key, iv, data).value, k);
  }

  /** Setting a fetched blob at an end with the same keys passes exactly the plaintext
      to TPMLIB_SetState, for every combination of keys, key sizes, IVs and of the
      request to decrypt, whatever the header flag says beyond is_encrypted. */
  lemma SetAfterGet(c: Crypto, keys: Keys, decrypt: bool, iv: Option<Bytes>, migrationIv: Option<Bytes>,
                    plain: Bytes, blobtype: Word32)
    requires c.Sound() && keys.Valid()
    requires IvFits(keys.file, iv) && IvFits(keys.migration, migrationIv)
    requires BlobFits(keys, decrypt, iv, migrationIv, |plain|)
    requires BlobTypeToStateType(blobtype).Some?
    ensures var got := GetStateBlob(c, keys, decrypt, iv, migrationIv, plain);
            && got.Ok?
            && SetStateBlob(c, keys, got.value.0, got.value.1, blobtype)
               == SetState(BlobTypeToStateType(blobtype).value, plain)
  {
    var key := keys.Inner(decrypt);
    var inner := LayerBytes(c, FileLayer, key, iv, plain).value;
    var outer := LayerBytes(c, MigrationLayer, keys.migration, migrationIv, inner).value;
    BlobOpens(c, keys, decrypt, iv, migrationIv, plain, inner, outer);
    SetHeadered(c, keys, outer, BlobFlags(keys, decrypt), key.Present(), blobtype);
  }

  lemma BlobOpens(c: Crypto, keys: Keys, decrypt: bool, iv: Option<Bytes>, migrationIv: Option<Bytes>,
                  plain: Bytes, inner: Bytes, outer: Bytes)
    requires c.Sound() && keys.Valid()
    requires IvFits(keys.file, iv) && IvFits(keys.migration, migrationIv)
    requires LayerFits(keys.Inner(decrypt), iv, |plain|) && LayerFits(keys.migration, migrationIv, |inner|)
    requires LayerBytes(c, FileLayer, keys.Inner(decrypt), iv, plain) == Ok(inner)
    requires LayerBytes(c, MigrationLayer, keys.migration, migrationIv, inner) == Ok(outer)
    ensures OpenBlob(c, keys, Header(BLOB_HEADER_VERSION, BlobFlags(keys, decrypt)), keys.Inner(decrypt).Present(),
                     outer) == Ok(plain)
  {
    var flags := BlobFlags(keys, decrypt);
    BlobFlagsAreDistinct(keys, decrypt);
    LayerOpens(c, FileLayer, keys.Inner(decrypt), iv, plain, flags, inner);
    LayerOpens(c, MigrationLayer, keys.migration, migrationIv, inner, flags, outer);
  }

  lemma LayerOpens(c: Crypto, layer: Layer, key: EncryptionKey, iv: Option<Bytes>, data: Bytes, flags: Word16,
                   body: Bytes)
    requires c.Sound() && key.Valid() && IvFits(key, iv) && LayerFits(key, iv, |data|)
    requires key.Present() ==> (HasFlag(flags, layer.LongKeyFlag()) <==> |key.key| == AES256_KEY_SIZE)
    requires LayerBytes(c, layer, key, iv, data) == Ok(body)
    ensures OpenLayer(c, layer, key, key.Present(), Header(BLOB_HEADER_VERSION, flags), body) == Ok(data)
  {
    LayerRoundTrip(c, layer, key, iv, data, flags);
  }

  lemma SetHeadered(c: Crypto, keys: Keys, body: Bytes, flags: Word16, isEncrypted: bool, blobtype: Word32)
    requires keys.Valid() && 0 < |body| && BLOB_HEADER_SIZE + |body| < 0x1_0000_0000
    requires BlobTypeToStateType(blobtype).Some?
    ensures SetStateBlob(c, keys, PrependHeader(body, flags), isEncrypted, blobtype) ==
            match OpenBlob(c, keys, Header(BLOB_HEADER_VERSION, flags), isEncrypted, body)
            case Ok(plain) => SetState(BlobTypeToStateType(blobtype).value, plain)
            case Err(rc) => Refused(rc)
  {
    HeaderRoundTrip(body, flags);
  }

  /** The sum of flags written into a blob header is read back flag by flag. */
  lemma BlobFlagsAreDistinct(keys: Keys, decrypt: bool)
    requires keys.Valid()
    ensures var key := keys.Inner(decrypt);
            var flags := BlobFlags(keys, decrypt);
            && (HasFlag(flags, FLAG_ENCRYPTED) <==> key.Present())
            && (HasFlag(flags, FLAG_MIGRATION_ENCRYPTED) <==> keys.migration.Present())
            && (key.Present() ==> (HasFlag(flags, FLAG_ENCRYPTED_256BIT_KEY) <==> |key.key| == AES256_KEY_SIZE))
            && (keys.migration.Present() ==>
                  (HasFlag(flags, FLAG_MIGRATION_256BIT_KEY) <==> |keys.migration.key| == AES256_KEY_SIZE))
  {
  }

  // ---- What a blob must look like to be accepted ---------------------------------------

  /** The first 32 bytes of an HMAC entry authenticate the encrypted entry and the IV,
      and the encrypted entry decrypts to `plain` and a pad. */
  ghost predicate SealedV2(c: Crypto, layer: Layer, key: Bytes, data: Bytes, plain: Bytes) {
    exists mac: Bytes, sealed: Bytes ::
      && Find(data, TAG_HMAC) == Some(mac) && Find(data, layer.EncryptedTag()) == Some(sealed)
      && AuthenticPad(c, key, Find(data, layer.IvecTag()), mac, sealed, plain)
  }

  ghost predicate AuthenticPad(c: Crypto, key: Bytes, iv: Option<Bytes>, mac: Bytes, sealed: Bytes, plain: Bytes) {
    && |mac| >= 32 && mac[..32] == c.hmac(key, sealed + IvBytes(iv))
    && DecryptsTo(c, key, iv, sealed, plain)
  }

  ghost predicate DecryptsTo(c: Crypto, key: Bytes, iv: Option<Bytes>, sealed: Bytes, plain: Bytes) {
    && (iv.Some? ==> |iv.value| >= BLOCK_SIZE)
    && |sealed| >= |key| && |sealed| % BLOCK_SIZE == 0
    && exists n: Byte :: 1 <= n <= |key| && c.decrypt(key, ChainingVector(iv), sealed) == plain + Repeat(n, n)
  }

  /** The layer decrypts, with a zero IV, to a digest, the data it digests, and a pad. */
  ghost predicate SealedV1(c: Crypto, key: Bytes, data: Bytes, plain: Bytes) {
    DecryptsTo(c, key, None, data, c.sha256(plain) + plain)
  }

  ghost predicate Opens(c: Crypto, layer: Layer, key: EncryptionKey, encrypted: bool, hdr: Header,
                        data: Bytes, plain: Bytes)
  {
    if encrypted then
      && key.Present()
      && (|| (hdr.version == 1 && SealedV1(c, key.key, data, plain))
          || (hdr.version == 2 && SealedV2(c, layer, key.key, data, plain)
              && (|key.key| == AES256_KEY_SIZE <==> HasFlag(hdr.flags, layer.LongKeyFlag()))))
    else
      || (hdr.version == 1 && plain == data)
      || (hdr.version == 2 && Find(data, layer.PlainTag()) == Some(plain))
  }

  lemma DecryptIff(c: Crypto, key: Bytes, iv: Option<Bytes>, data: Bytes, plain: Bytes)
    requires c.Sound() && IsKeySize(|key|)
    ensures Decrypt(c, key, iv, data) == Ok(plain) <==> DecryptsTo(c, key, iv, data, plain)
  {
    if |data| >= |key| && (iv.Some? ==> |iv.value| >= BLOCK_SIZE) {
      UnpaddedIff(c.decrypt(key, ChainingVector(iv), data), |key|, plain);
    }
  }

  lemma CheckHashIff(c: Crypto, input: Bytes, plain: Bytes)
    requires c.Sound()
    ensures CheckHash(c, input) == Ok(plain) <==> input == c.sha256(plain) + plain
  {
    if input == c.sha256(plain) + plain {
      assert input[..32] == c.sha256(plain);
      assert input[32..] == plain;
    }
    if CheckHash(c, input) == Ok(plain) {
      assert input == input[..32] + input[32..];
    }
  }

  lemma OpenLayerIff(c: Crypto, layer: Layer, key: EncryptionKey, encrypted: bool, hdr: Header,
                     data: Bytes, plain: Bytes)
    requires c.Sound() && key.Valid()
    ensures OpenLayer(c, layer, key, encrypted, hdr, data) == Ok(plain)
            <==> Opens(c, layer, key, encrypted, hdr, data, plain)
  {
    if encrypted && key.Present() {
      if hdr.version == 1 {
        DecryptIff(c, key.key, None, data, c.sha256(plain) + plain);
        var r := Decrypt(c, key.key, None, data);
        if r.Ok? {
          CheckHashIff(c, r.value, plain);
        }
      } else if hdr.version == 2 {
        var sealed := Find(data, layer.EncryptedTag());
        if sealed.Some? {
          DecryptIff(c, key.key, Find(data, layer.IvecTag()), sealed.value, plain);
        }
      }
    }
  }

  /** For arbitrary bytes: SetStateBlob passes a payload on exactly when every layer
      that is said to be encrypted has its key present and its check passing, and every
      other layer frames its data; any version but 1 and 2 is refused. */
  lemma SetStateBlobIff(c: Crypto, keys: Keys, data: Bytes, isEncrypted: bool, blobtype: Word32,
                        st: StateType, plain: Bytes)
    requires c.Sound() && keys.Valid()
    requires |data| > BLOB_HEADER_SIZE
    ensures SetStateBlob(c, keys, data, isEncrypted, blobtype) == SetState(st, plain) <==>
            && BlobTypeToStateType(blobtype) == Some(st)
            && CheckHeader(data).Ok?
            && var hdr := CheckHeader(data).value;
               exists inner: Bytes ::
                 && Opens(c, MigrationLayer, keys.migration, HasFlag(hdr.flags, FLAG_MIGRATION_ENCRYPTED),
                          hdr, data[BLOB_HEADER_SIZE..], inner)
                 && Opens(c, FileLayer, keys.file, isEncrypted || HasFlag(hdr.flags, FLAG_ENCRYPTED),
                          hdr, inner, plain)
  {
    if CheckHeader(data).Ok? {
      var hdr := CheckHeader(data).value;
      var body := data[BLOB_HEADER_SIZE..];
      forall inner: Bytes
        ensures OpenLayer(c, MigrationLayer, keys.migration, HasFlag(hdr.flags, FLAG_MIGRATION_ENCRYPTED), hdr, body)
                == Ok(inner)
                <==> Opens(c, MigrationLayer, keys.migration, HasFlag(hdr.flags, FLAG_MIGRATION_ENCRYPTED),
                           hdr, body, inner)
        ensures OpenLayer(c, FileLayer, keys.file, isEncrypted || HasFlag(hdr.flags, FLAG_ENCRYPTED), hdr, inner)
                == Ok(plain)
                <==> Opens(c, FileLayer, keys.file, isEncrypted || HasFlag(hdr.flags, FLAG_ENCRYPTED),
                           hdr, inner, plain)
      {
        OpenLayerIff(c, MigrationLayer, keys.migration, HasFlag(hdr.flags, FLAG_MIGRATION_ENCRYPTED), hdr, body, inner);
        OpenLayerIff(c, FileLayer, keys.file, isEncrypted || HasFlag(hdr.flags, FLAG_ENCRYPTED), hdr, inner, plain);
      }
    }
  }

  /** A blob without a body is accepted if and only if its type is known and it is empty or
      just a header that passes the check; it then clears the state, whatever the keys. */
  lemma EmptyBlobClearsState(c: Crypto, keys: Keys, data: Bytes, isEncrypted: bool, blobtype: Word32)
    requires keys.Valid() && |data| <= BLOB_HEADER_SIZE
    ensures var outcome := SetStateBlob(c, keys, data, isEncrypted, blobtype);
            && (outcome.SetState? <==>
                  && BlobTypeToStateType(blobtype).Some?
                  && (data == [] || (|data| == BLOB_HEADER_SIZE && BareHeader(data))))
            && (outcome.SetState? ==> outcome == SetState(BlobTypeToStateType(blobtype).value, []))
  {
  }

  /** A header that announces nothing but itself, in a version the code knows. */
  predicate BareHeader(data: Bytes)
    requires |data| == BLOB_HEADER_SIZE
  {
    data[1] <= BLOB_HEADER_VERSION && FromBe16(data[2..4]) == BLOB_HEADER_SIZE
    && FromBe32(data[6..10]) == BLOB_HEADER_SIZE
  }
}
