/** Byte strings, return codes and the fixed-width integer encodings that the
    swtpm sources share.  Big-endian is what htobe16/htobe32/htons/htonl produce
    (blob headers and TLV headers); little-endian is what htole16/htole32 produce
    (the header of the linear store). */
module Bytes {

  type Byte = x: int | 0 <= x < 256
  type Bytes = seq<Byte>

  type Word16 = x: int | 0 <= x < 0x1_0000
  type Word32 = x: int | 0 <= x < 0x1_0000_0000

  /** Results of the TPM_RESULT type that the modelled code distinguishes. */
  datatype Rc =
    | Success
    | Fail
    | Retry
    | Size
    | BadParameter
    | BadVersion
    | BadDatasize
    | BadMode
    | BadKeyProperty
    | DecryptError
    | EncryptError
    | KeyNotFound

  datatype Option<+T> = None | Some(value: T)

  datatype Result<+T> = Ok(value: T) | Err(rc: Rc)
  {
    predicate IsFailure() { Err? }

    function PropagateFailure<U>(): Result<U>
      requires Err?
    {
      Err(rc)
    }

    function Extract(): T
      requires Ok?
    {
      value
    }
  }

  /** A copy of `count` equal bytes, as memset writes it. */
  function Repeat(b: Byte, count: nat): (r: Bytes)
    ensures |r| == count
    ensures forall i :: 0 <= i < count ==> r[i] == b
  {
    seq(count, _ => b)
  }

  function Be16(n: Word16): (r: Bytes)
    ensures |r| == 2
  {
    [n / 256, n % 256]
  }

  function FromBe16(b: Bytes): (r: Word16)
    requires |b| == 2
  {
    b[0] as int * 256 + b[1]
  }

  function Be32(n: Word32): (r: Bytes)
    ensures |r| == 4
  {
    Be16(n / 0x1_0000) + Be16(n % 0x1_0000)
  }

  function FromBe32(b: Bytes): (r: Word32)
    requires |b| == 4
  {
    FromBe16(b[..2]) as int * 0x1_0000 + FromBe16(b[2..])
  }

  function Le32(n: Word32): (r: Bytes)
    ensures |r| == 4
  {
    [n % 256, n / 256 % 256, n / 0x1_0000 % 256, n / 0x100_0000]
  }

  function FromLe32(b: Bytes): (r: Word32)
    requires |b| == 4
  {
    b[0] as int + b[1] as int * 256 + b[2] as int * 0x1_0000 + b[3] as int * 0x100_0000
  }

  lemma Be32RoundTrip(n: Word32)
    ensures FromBe32(Be32(n)) == n
  {
    assert Be32(n)[..2] == Be16(n / 0x1_0000);
    assert Be32(n)[2..] == Be16(n % 0x1_0000);
  }

  lemma Le32RoundTrip(n: Word32)
    ensures FromLe32(Le32(n)) == n
  {
    var high := n / 256;
    assert n == high * 256 + n % 256;
    assert high == high / 256 * 256 + high % 256;
    assert n / 0x1_0000 == high / 256;
    assert n / 0x100_0000 == high / 0x1_0000;
  }

  /** The decoder is injective too: four bytes carry no more than the number. */
  lemma Be32Inverse(b: Bytes)
    requires |b| == 4
    ensures Be32(FromBe32(b)) == b
  {
    var high, low := FromBe16(b[..2]), FromBe16(b[2..]);
    Be16Inverse(b[..2]);
    Be16Inverse(b[2..]);
    HalvesOfWord(high, low);
    assert b == b[..2] + b[2..];
  }

  lemma Be16Inverse(b: Bytes)
    requires |b| == 2
    ensures Be16(FromBe16(b)) == b
  {
  }

  lemma HalvesOfWord(high: Word16, low: Word16)
    ensures (high as int * 0x1_0000 + low) / 0x1_0000 == high && (high as int * 0x1_0000 + low) % 0x1_0000 == low
  {
  }

  /** Equal from `k` on means equal in every slice behind `k`. */
  lemma SuffixSlice(d: Bytes, d': Bytes, k: nat, a: nat, b: nat)
    requires k <= a <= b <= |d| == |d'| && d[k..] == d'[k..]
    ensures d[a..b] == d'[a..b]
  {
    forall x | a <= x < b
      ensures d[x] == d'[x]
    {
      assert d[k..][x - k] == d'[k..][x - k];
    }
  }

  /** `d` with the bytes from `at` on overwritten by `src`. */
  function Spliced(d: Bytes, at: nat, src: Bytes): (r: Bytes)
    requires at + |src| <= |d|
    ensures |r| == |d|
  {
    d[..at] + src + d[at + |src|..]
  }

  /** memcpy of `src` to `dst + at`. */
  method Memcpy(dst: array<Byte>, at: nat, src: Bytes)
    requires at + |src| <= dst.Length
    modifies dst
    ensures dst[..] == Spliced(old(dst[..]), at, src)
  {
    for k := 0 to |src|
      invariant dst[..at] == old(dst[..at])
      invariant dst[at..at + k] == src[..k]
      invariant dst[at + k..] == old(dst[at + k..])
    {
      dst[at + k] := src[k];
    }
    assert dst[..] == dst[..at] + dst[at..at + |src|] + dst[at + |src|..];
  }

  /** memmove of `count` bytes towards lower addresses; the ranges may overlap. */
  method MemmoveDown(d: array<Byte>, dst: nat, src: nat, count: nat)
    requires dst <= src && src + count <= d.Length
    modifies d
    ensures d[..] == MovedDown(old(d[..]), dst, src, count)
  {
    ghost var was := d[..];
    for k := 0 to count
      invariant forall x :: 0 <= x < dst ==> d[x] == was[x]
      invariant forall x :: dst <= x < dst + k ==> d[x] == was[x + (src - dst)]
      invariant forall x :: dst + k <= x < d.Length ==> d[x] == was[x]
    {
      d[dst + k] := d[src + k];
    }
    MovedDownAt(was, d[..], dst, src, count);
  }

  lemma MovedDownAt(d: Bytes, d': Bytes, dst: nat, src: nat, count: nat)
    requires dst <= src && src + count <= |d| == |d'|
    requires forall x :: 0 <= x < dst ==> d'[x] == d[x]
    requires forall x :: dst <= x < dst + count ==> d'[x] == d[x + (src - dst)]
    requires forall x :: dst + count <= x < |d| ==> d'[x] == d[x]
    ensures d' == MovedDown(d, dst, src, count)
  {
    assert d'[..dst] == d[..dst];
    assert d'[dst..dst + count] == d[src..src + count];
    assert d'[dst + count..] == d[dst + count..];
    assert d' == d'[..dst] + d'[dst..dst + count] + d'[dst + count..];
  }

  function MovedDown(d: Bytes, dst: nat, src: nat, count: nat): (r: Bytes)
    requires dst <= src && src + count <= |d|
    ensures |r| == |d|
  {
    d[..dst] + d[src..src + count] + d[dst + count..]
  }
}
