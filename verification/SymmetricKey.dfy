/** Padding and AES-CBC framing of src/swtpm/swtpm_aes.c, over an arbitrary cipher. */
module SymmetricKey {
  import opened Bytes

  const BLOCK_SIZE := 16
  const AES128_KEY_SIZE := 16
  const AES256_KEY_SIZE := 32

  /** The OpenSSL primitives: AES-CBC without padding (key, 16-byte IV, data),
      HMAC-SHA256 (key, data) and SHA-256. */
  datatype Crypto = Crypto(
    encrypt: (Bytes, Bytes, Bytes) -> Bytes,
    decrypt: (Bytes, Bytes, Bytes) -> Bytes,
    hmac: (Bytes, Bytes) -> Bytes,
    sha256: Bytes -> Bytes)
  {
    /** What is asked of the primitives: both directions of the cipher keep the
        length, decryption inverts encryption on whole blocks, and digests are 32
        bytes long. */
    ghost predicate Sound() {
      && (forall key, iv, data :: |encrypt(key, iv, data)| == |data| == |decrypt(key, iv, data)|)
      && (forall key, iv, data ::
            |data| % BLOCK_SIZE == 0 ==> decrypt(key, iv, encrypt(key, iv, data)) == data)
      && (forall key, data :: |hmac(key, data)| == 32)
      && (forall data :: |sha256(data)| == 32)
    }
  }

  predicate IsKeySize(n: nat) {
    n == AES128_KEY_SIZE || n == AES256_KEY_SIZE
  }

  // ---- Padding, section 6.3 of RFC 2630 --------------------------------------

  function PadLength(length: nat, k: nat): (r: nat)
    requires IsKeySize(k)
    ensures 1 <= r <= k
    ensures (length + r) % k == 0
  {
    PadLengthFills(length, k);
    k - length % k
  }

  lemma PadLengthFills(length: nat, k: nat)
    requires IsKeySize(k)
    ensures (length + (k - length % k)) % k == 0
  {
    if k == 16 {
      assert (length + (16 - length % 16)) % 16 == 0;
    } else {
      assert (length + (32 - length % 32)) % 32 == 0;
    }
  }

  function Padded(data: Bytes, k: nat): Bytes
    requires IsKeySize(k)
  {
    data + Repeat(PadLength(|data|, k), PadLength(|data|, k))
  }

  /** The checks made on a decrypted stream before its pad is dropped. */
  function Unpadded(plain: Bytes, k: nat): Result<Bytes>
    requires IsKeySize(k) && k <= |plain|
  {
    var n := plain[|plain| - 1];
    if n == 0 || n > k then Err(DecryptError)
    else if forall i :: |plain| - n <= i < |plain| ==> plain[i] == n then Ok(plain[..|plain| - n])
    else Err(DecryptError)
  }

  /** The pad buffer as SymmetricKeyData_Encrypt fills it: memcpy then memset. */
  method PadData(data: Bytes, k: nat) returns (padded: Bytes)
    requires IsKeySize(k)
    ensures padded == Padded(data, k)
    ensures |padded| % k == 0
  {
    var padLength := PadLength(|data|, k);
    var buf := new Byte[|data| + padLength](_ => 0);
    for i := 0 to |data|
      invariant buf[..i] == data[..i]
    {
      buf[i] := data[i];
    }
    for i := 0 to padLength
      invariant buf[..|data|] == data
      invariant forall j :: |data| <= j < |data| + i ==> buf[j] == padLength
    {
      buf[|data| + i] := padLength;
    }
    assert buf[|data|..] == Repeat(padLength, padLength);
    padded := buf[..];
  }

  /** The pad check as SymmetricKeyData_Decrypt runs it: the loop goes on after a
      bad byte, keeping the error. */
  method UnpadData(plain: Bytes, k: nat) returns (r: Result<Bytes>)
    requires IsKeySize(k) && k <= |plain|
    ensures r == Unpadded(plain, k)
  {
    var padLength := plain[|plain| - 1];
    if padLength == 0 || padLength > k {
      return Err(DecryptError);
    }
    var bad := false;
    var start := |plain| - padLength;
    for i := 0 to padLength
      invariant bad <==> exists j :: start <= j < start + i && plain[j] != padLength
    {
      if plain[start + i] != padLength {
        bad := true;
      }
    }
    r := if bad then Err(DecryptError) else Ok(plain[..start]);
  }

  /** A decrypted stream is accepted exactly when it ends in n bytes of value n,
      1 <= n <= k, and what precedes them is what is returned. */
  lemma UnpaddedIff(plain: Bytes, k: nat, data: Bytes)
    requires IsKeySize(k) && k <= |plain|
    ensures Unpadded(plain, k) == Ok(data) <==>
            exists n: Byte :: 1 <= n <= k && plain == data + Repeat(n, n)
  {
    if Unpadded(plain, k) == Ok(data) {
      var n := plain[|plain| - 1];
      assert plain == data + Repeat(n, n);
    }
    if n: Byte :| 1 <= n <= k && plain == data + Repeat(n, n) {
      assert plain[|plain| - 1] == n;
      assert plain[..|plain| - n] == data;
    }
  }

  /** Unpadding inverts padding, and on whole key-length units nothing else unpads
      to the same data. */
  lemma UnpadInvertsPad(plain: Bytes, k: nat, data: Bytes)
    requires IsKeySize(k) && k <= |plain|
    requires |plain| % k == 0
    ensures Unpadded(plain, k) == Ok(data) <==> plain == Padded(data, k)
  {
    UnpaddedIff(plain, k, data);
    if n: Byte :| 1 <= n <= k && plain == data + Repeat(n, n) {
      SamePad(|data|, n, k);
    }
  }

  lemma SamePad(length: nat, n: nat, k: nat)
    requires IsKeySize(k) && 1 <= n <= k && (length + n) % k == 0
    ensures n == PadLength(length, k)
  {
    assert k == 16 || k == 32;
  }

  // ---- Encryption and decryption of a stream ---------------------------------

  /** The initial chaining vector: the first block of the given IV, or zeros. */
  function ChainingVector(iv: Option<Bytes>): (r: Bytes)
    requires iv.Some? ==> |iv.value| >= BLOCK_SIZE
    ensures |r| == BLOCK_SIZE
  {
    if iv.Some? then iv.value[..BLOCK_SIZE] else Repeat(0, BLOCK_SIZE)
  }

  function Encrypt(c: Crypto, key: Bytes, iv: Option<Bytes>, data: Bytes): Result<Bytes>
    requires IsKeySize(|key|)
  {
    if iv.Some? && |iv.value| < BLOCK_SIZE then Err(EncryptError)
    else
      var padded := Padded(data, |key|);
      var out := c.encrypt(key, ChainingVector(iv), padded);
      if |out| != |padded| then Err(Fail) else Ok(out)
  }

  function Decrypt(c: Crypto, key: Bytes, iv: Option<Bytes>, data: Bytes): Result<Bytes>
    requires IsKeySize(|key|)
  {
    if |data| < |key| then Err(DecryptError)
    else if iv.Some? && |iv.value| < BLOCK_SIZE then Err(DecryptError)
    else
      var plain := c.decrypt(key, ChainingVector(iv), data);
      // without padding OpenSSL refuses a partial last block
      if |data| % BLOCK_SIZE != 0 || |plain| != |data| then Err(Fail)
      else Unpadded(plain, |key|)
  }

  lemma DecryptInvertsEncrypt(c: Crypto, key: Bytes, iv: Option<Bytes>, data: Bytes)
    requires c.Sound() && IsKeySize(|key|)
    requires iv.Some? ==> |iv.value| >= BLOCK_SIZE
    ensures var sealed := Encrypt(c, key, iv, data);
            && sealed.Ok?
            && |sealed.value| == |data| + PadLength(|data|, |key|)
            && Decrypt(c, key, iv, sealed.value) == Ok(data)
  {
    var padded, v := Padded(data, |key|), ChainingVector(iv);
    PaddedIsWhole(data, |key|);
    UnpadInvertsPad(padded, |key|, data);
    var sealed := c.encrypt(key, v, padded);
    assert |sealed| == |padded| && c.decrypt(key, v, sealed) == padded;
  }

  lemma BlocksOfLongKey(n: nat)
    requires n % AES256_KEY_SIZE == 0
    ensures n % BLOCK_SIZE == 0
  {
    var q := n / 32;
    assert n == 2 * q * 16;
  }

  /** Padded data are whole key lengths, and whole cipher blocks. */
  lemma PaddedIsWhole(data: Bytes, k: nat)
    requires IsKeySize(k)
    ensures var n := |Padded(data, k)|;
            n == |data| + PadLength(|data|, k) && n >= k && n % k == 0 && n % BLOCK_SIZE == 0
  {
    var n := |data| + PadLength(|data|, k);
    if k == 32 {
      BlocksOfLongKey(n);
    }
  }
}
