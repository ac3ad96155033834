/** The header that prepend_san_asn1_header of src/swtpm_cert/ek-cert.c writes backwards in
    front of a subject alternative name, and its decoding per ITU-T X.690. */
module DerHeader {
  import opened Bytes

  const TAG_SEQUENCE: Byte := 0x30
  const TAG_CONTEXT_4: Byte := 0xa4
  const BUFFER_SIZE := 20

  // ---- Encoding ------------------------------------------------------------------------------

  /** The octets of a number, most significant first, without leading zeros. */
  function BigEndian(n: nat): (r: Bytes)
    ensures r != [] && (n > 0 ==> r[0] > 0)
  {
    if n < 256 then [n] else BigEndian(n / 256) + [n % 256]
  }

  function FromBigEndian(b: Bytes): nat {
    if b == [] then 0 else FromBigEndian(b[..|b| - 1]) * 256 + b[|b| - 1]
  }

  function Power256(k: nat): nat {
    if k == 0 then 1 else 256 * Power256(k - 1)
  }

  /** Length octets: the short form up to 127, else the long form. */
  function LengthOctets(n: nat): Bytes
    requires |BigEndian(n)| < 127
  {
    var octets := BigEndian(n);
    if |octets| > 1 || octets[0] >= 0x80 then [0x80 + |octets|] + octets else octets
  }

  function Der(tag: Byte, content: Bytes): Bytes
    requires |BigEndian(|content|)| < 127
  {
    [tag] + LengthOctets(|content|) + content
  }

  // ---- Decoding (section 8.1.3 of X.690) ---------------------------------------------------------

  datatype Length = Length(value: nat, size: nat)

  /** A definite length, and the number of octets it takes. */
  function DecodeLength(b: Bytes): Option<Length> {
    if b == [] then None
    else if b[0] < 0x80 then Some(Length(b[0], 1))
    else
      var k := b[0] - 0x80;
      if k == 0 || k == 127 || 1 + k > |b| then None
      else Some(Length(FromBigEndian(b[1..1 + k]), 1 + k))
  }

  datatype Element = Element(tag: Byte, content: Bytes, rest: Bytes)

  function DecodeElement(b: Bytes): Option<Element> {
    if b == [] then None
    else
      var length := DecodeLength(b[1..]);
      if length.None? || 1 + length.value.size + length.value.value > |b| then None
      else
        var at := 1 + length.value.size;
        Some(Element(b[0], b[at..at + length.value.value], b[at + length.value.value..]))
  }

  // ---- Properties of the encoding ------------------------------------------------------------------

  lemma {:induction false} BigEndianRoundTrip(n: nat)
    ensures FromBigEndian(BigEndian(n)) == n
  {
    var b := BigEndian(n);
    if n < 256 {
      assert b[..0] == [];
    } else {
      BigEndianRoundTrip(n / 256);
      assert b[..|b| - 1] == BigEndian(n / 256);
    }
  }

  lemma {:induction false} BigEndianSize(n: nat, k: nat)
    requires n < Power256(k) && k > 0
    ensures |BigEndian(n)| <= k
  {
    if n >= 256 {
      assert k > 1;
      BigEndianSize(n / 256, k - 1);
    }
  }

  lemma {:induction false} FromBigEndianBound(b: Bytes)
    ensures FromBigEndian(b) < Power256(|b|)
  {
    if b != [] {
      FromBigEndianBound(b[..|b| - 1]);
    }
  }

  lemma LengthRoundTrip(n: nat, rest: Bytes)
    requires |BigEndian(n)| < 127
    ensures DecodeLength(LengthOctets(n) + rest) == Some(Length(n, |LengthOctets(n)|))
  {
    BigEndianRoundTrip(n);
    var b, octets := LengthOctets(n) + rest, BigEndian(n);
    if |octets| > 1 || octets[0] >= 0x80 {
      assert b[1..1 + |octets|] == octets;
    } else {
      assert octets[..0] == [];
    }
  }

  /** Section 10.1 of X.690: no other encoding of the same length is shorter. */
  lemma LengthIsMinimal(b: Bytes)
    requires DecodeLength(b).Some?
    ensures var n := DecodeLength(b).value.value;
            |BigEndian(n)| < 127 && |LengthOctets(n)| <= DecodeLength(b).value.size
  {
    var length := DecodeLength(b).value;
    if b[0] >= 0x80 {
      FromBigEndianBound(b[1..length.size]);
      BigEndianSize(length.value, length.size - 1);
    }
  }

  lemma ElementParts(tag: Byte, octets: Bytes, content: Bytes, rest: Bytes)
    ensures var b, at := [tag] + octets + content + rest, 1 + |octets|;
            && b[0] == tag && b[1..] == octets + (content + rest)
            && b[at..at + |content|] == content && b[at + |content|..] == rest
  {
  }

  /** Decoding an element undoes encoding it, whatever follows. */
  lemma ElementRoundTrip(tag: Byte, content: Bytes, rest: Bytes)
    requires |BigEndian(|content|)| < 127
    ensures DecodeElement(Der(tag, content) + rest) == Some(Element(tag, content, rest))
  {
    ElementParts(tag, LengthOctets(|content|), content, rest);
    LengthRoundTrip(|content|, content + rest);
  }

  // ---- The writer --------------------------------------------------------------------------------------

  /** The loop that writes the octets of a number backwards, ending at index `end`. */
  method WriteOctets(buffer: array<Byte>, end: nat, length: nat) returns (i: nat)
    requires |BigEndian(length)| <= end <= buffer.Length
    modifies buffer
    ensures i + |BigEndian(length)| == end && buffer[i..end] == BigEndian(length)
    ensures buffer[..i] == old(buffer[..i]) && buffer[end..] == old(buffer[end..])
  {
    i := end;
    var size := length;
    while true
      invariant 0 <= i <= end <= buffer.Length
      invariant BigEndian(length) == BigEndian(size) + buffer[i..end]
      invariant buffer[..i] == old(buffer[..i]) && buffer[end..] == old(buffer[end..])
      decreases size
    {
      ghost var tail := buffer[i..end];
      i := i - 1;
      buffer[i] := size % 256;
      assert buffer[i..end] == [size % 256] + tail;
      if size < 256 {
        break;
      }
      assert BigEndian(size / 256) + [size % 256] + tail == BigEndian(size / 256) + buffer[i..end];
      size := size / 256;
    }
  }

  /** buffer[--i] = b. */
  method PutBefore(buffer: array<Byte>, i: nat, end: nat, b: Byte) returns (i': nat)
    requires 0 < i <= end <= buffer.Length
    modifies buffer
    ensures i' == i - 1 && buffer[i'..end] == [b] + old(buffer[i..end])
    ensures buffer[end..] == old(buffer[end..])
  {
    i' := i - 1;
    buffer[i'] := b;
  }

  /** A tag and the length octets behind it, written backwards. */
  method WriteHeader(buffer: array<Byte>, end: nat, length: nat, tag: Byte) returns (i: nat)
    requires |BigEndian(length)| < 127 && 1 + |LengthOctets(length)| <= end <= buffer.Length
    modifies buffer
    ensures i + 1 + |LengthOctets(length)| == end && buffer[i..end] == [tag] + LengthOctets(length)
    ensures buffer[end..] == old(buffer[end..])
  {
    i := WriteOctets(buffer, end, length);
    assert buffer[i] == buffer[i..end][0];
    var intlen := end - i;
    if intlen > 1 || buffer[i] >= 0x80 {
      i := PutBefore(buffer, i, end, 0x80 + intlen);
    }
    i := PutBefore(buffer, i, end, tag);
  }

  /** prepend_san_asn1_header: the payload becomes a context tag 4 element within a
      SEQUENCE, with minimal lengths, and the index stays within the buffer.  The new size
      is a 32-bit field. */
  method PrependSanHeader(payload: Bytes) returns (data: Bytes, size: Word32)
    requires |payload| < 0x1_0000_0000
    ensures |BigEndian(|payload|)| < 127
    ensures |BigEndian(|Der(TAG_CONTEXT_4, payload)|)| < 127
    ensures data == Der(TAG_SEQUENCE, Der(TAG_CONTEXT_4, payload))
    ensures size == |data| % 0x1_0000_0000
  {
    var buffer := new Byte[BUFFER_SIZE](_ => 0);
    HeaderSizes(payload);
    var i := WriteHeader(buffer, BUFFER_SIZE, |payload|, TAG_CONTEXT_4);
    ghost var j := i;
    ghost var inner := buffer[j..];
    var total := |payload| + BUFFER_SIZE - i;
    i := WriteHeader(buffer, i, total, TAG_SEQUENCE);
    assert buffer[i..] == buffer[i..j] + inner;
    assert inner + payload == Der(TAG_CONTEXT_4, payload);
    data := buffer[i..] + payload;
    assert data == buffer[i..j] + (inner + payload);
    size := |data| % 0x1_0000_0000;
  }

  /** Both headers fit into the buffer. */
  lemma HeaderSizes(payload: Bytes)
    requires |payload| < 0x1_0000_0000
    ensures |BigEndian(|payload|)| <= 4 && |Der(TAG_CONTEXT_4, payload)| <= |payload| + 6
    ensures |BigEndian(|Der(TAG_CONTEXT_4, payload)|)| <= 5
    ensures |LengthOctets(|payload|)| <= 5 && |LengthOctets(|Der(TAG_CONTEXT_4, payload)|)| <= 6
  {
    assert Power256(4) == 0x1_0000_0000 && Power256(5) == 0x100_0000_0000;
    BigEndianSize(|payload|, 4);
    BigEndianSize(|Der(TAG_CONTEXT_4, payload)|, 5);
  }

  /** What the header decodes to. */
  lemma HeaderDecodes(payload: Bytes)
    requires |payload| < 0x1_0000_0000
    ensures |BigEndian(|payload|)| < 127
    ensures |BigEndian(|Der(TAG_CONTEXT_4, payload)|)| < 127
    ensures var san := Der(TAG_CONTEXT_4, payload);
            && DecodeElement(Der(TAG_SEQUENCE, san)) == Some(Element(TAG_SEQUENCE, san, []))
            && DecodeElement(san) == Some(Element(TAG_CONTEXT_4, payload, []))
  {
    HeaderSizes(payload);
    var san := Der(TAG_CONTEXT_4, payload);
    ElementRoundTrip(TAG_SEQUENCE, san, []);
    ElementRoundTrip(TAG_CONTEXT_4, payload, []);
    assert Der(TAG_SEQUENCE, san) + [] == Der(TAG_SEQUENCE, san) && san + [] == san;
  }
}
