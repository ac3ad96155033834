/** The tag-length-value codec of src/swtpm/tlv.c. */
module Tlv {
  import opened Bytes

  const HEADER_SIZE := 6

  const TAG_DATA: Word16 := 1
  const TAG_ENCRYPTED_DATA: Word16 := 2
  const TAG_HMAC: Word16 := 3
  const TAG_MIGRATION_DATA: Word16 := 4
  const TAG_ENCRYPTED_MIGRATION_DATA: Word16 := 5
  const TAG_IVEC_ENCRYPTED_DATA: Word16 := 6
  const TAG_IVEC_ENCRYPTED_MIGRATION_DATA: Word16 := 7

  /** A tlv_data entry; its length field is 32 bits wide. */
  datatype RawEntry = Entry(tag: Word16, value: Bytes)
  type Entry = e: RawEntry | |e.value| < 0x1_0000_0000 witness RawEntry.Entry(0, [])

  function EncodeOne(e: Entry): (r: Bytes)
    ensures |r| == HEADER_SIZE + |e.value|
  {
    Be16(e.tag) + Be32(|e.value|) + e.value
  }

  function Encode(es: seq<Entry>): Bytes {
    if es == [] then [] else EncodeOne(es[0]) + Encode(es[1..])
  }

  /** What tlv_data_find_tag looks for, read off the byte stream: the value of the
      first well-framed entry with the tag. */
  function Find(buffer: Bytes, tag: Word16): (r: Option<Bytes>)
    decreases |buffer|
  {
    if |buffer| < HEADER_SIZE then None
    else
      var length := FromBe32(buffer[2..6]);
      if HEADER_SIZE + length > |buffer| then None
      else if FromBe16(buffer[..2]) == tag then Some(buffer[HEADER_SIZE..HEADER_SIZE + length])
      else Find(buffer[HEADER_SIZE + length..], tag)
  }

  /** Reference meaning of a search in a list of entries. */
  function FirstWithTag(es: seq<Entry>, tag: Word16): Option<Bytes> {
    if es == [] then None
    else if es[0].tag == tag then Some(es[0].value)
    else FirstWithTag(es[1..], tag)
  }

  // ---- The two operations, as tlv.c performs them -------------------------

  method EncodedLength(td: seq<Entry>) returns (addlen: nat)
    ensures addlen == |Encode(td)|
  {
    addlen := 0;
    for i := 0 to |td|
      invariant addlen == |Encode(td[..i])|
    {
      EncodeSnoc(td, i);
      addlen := addlen + HEADER_SIZE + |td[i].value|;
    }
    assert td[..|td|] == td;
  }

  /** Writes one header and its value at `ptr`. */
  method PutEntry(out: array<Byte>, ptr: nat, e: Entry) returns (next: nat)
    requires ptr + HEADER_SIZE + |e.value| <= out.Length
    modifies out
    ensures next == ptr + |EncodeOne(e)|
    ensures out[..next] == old(out[..ptr]) + EncodeOne(e)
  {
    Memcpy(out, ptr, Be16(e.tag) + Be32(|e.value|));
    assert out[..ptr + HEADER_SIZE] == old(out[..ptr]) + (Be16(e.tag) + Be32(|e.value|));
    Memcpy(out, ptr + HEADER_SIZE, e.value);
    next := ptr + HEADER_SIZE + |e.value|;
  }

  method Append(buffer: Bytes, td: seq<Entry>) returns (r: Result<Bytes>)
    ensures r == if |buffer + Encode(td)| > 0xffff_ffff then Err(Fail) else Ok(buffer + Encode(td))
  {
    var addlen := EncodedLength(td);
    var totlen := |buffer| + addlen;
    if totlen > 0xffff_ffff {
      return Err(Fail);
    }
    var out := new Byte[totlen](_ => 0);
    Memcpy(out, 0, buffer);
    var ptr := |buffer|;
    for i := 0 to |td|
      invariant ptr == |buffer| + |Encode(td[..i])| <= out.Length
      invariant out[..ptr] == buffer + Encode(td[..i])
    {
      EncodeSnoc(td, i);
      ConcatAssoc(buffer, Encode(td[..i]), EncodeOne(td[i]));
      ptr := PutEntry(out, ptr, td[i]);
    }
    assert td[..|td|] == td;
    assert out[..] == out[..ptr];
    r := Ok(out[..]);
  }

  /** On arbitrary bytes: terminates, answers the search of `Find`, and whatever it
      returns lies inside the buffer. */
  method FindTag(buffer: Bytes, tag: Word16) returns (found: bool, at: nat, length: nat)
    ensures found <==> Find(buffer, tag).Some?
    ensures found ==> HEADER_SIZE <= at && at + length <= |buffer|
    ensures found ==> Find(buffer, tag) == Some(buffer[at..at + length])
  {
    found, at, length := false, 0, 0;
    var offset := 0;
    assert buffer[0..] == buffer;
    while offset < |buffer|
      invariant offset <= |buffer|
      invariant Find(buffer, tag) == Find(buffer[offset..], tag)
    {
      if offset + HEADER_SIZE > |buffer| {
        return;
      }
      var t := FromBe16(buffer[offset..offset + 2]);
      var len := FromBe32(buffer[offset + 2..offset + HEADER_SIZE]);
      FindUnfold(buffer, offset, tag);
      offset := offset + HEADER_SIZE;
      if offset + len > |buffer| {
        return;
      }
      if t == tag {
        return true, offset, len;
      }
      offset := offset + len;
    }
  }

  // ---- Properties -----------------------------------------------------------

  /** Appending to an existing encoding is encoding the concatenated list. */
  lemma {:induction false} EncodeAppend(xs: seq<Entry>, ys: seq<Entry>)
    ensures Encode(xs + ys) == Encode(xs) + Encode(ys)
  {
    if xs == [] {
      assert xs + ys == ys;
    } else {
      EncodeAppend(xs[1..], ys);
      assert (xs + ys)[1..] == xs[1..] + ys;
    }
  }

  lemma EncodeSnoc(td: seq<Entry>, i: nat)
    requires i < |td|
    ensures Encode(td[..i + 1]) == Encode(td[..i]) + EncodeOne(td[i])
    ensures |Encode(td[..i + 1])| <= |Encode(td)|
  {
    assert td[..i + 1] == td[..i] + [td[i]];
    EncodeAppend(td[..i], [td[i]]);
    assert td == td[..i + 1] + td[i + 1..];
    EncodeAppend(td[..i + 1], td[i + 1..]);
  }

  /** One unfolding of the search, in terms of an offset into the whole buffer. */
  lemma FindUnfold(buffer: Bytes, offset: nat, tag: Word16)
    requires offset + HEADER_SIZE <= |buffer|
    ensures var length := FromBe32(buffer[offset + 2..offset + HEADER_SIZE]);
            var at := offset + HEADER_SIZE;
            Find(buffer[offset..], tag) ==
            if at + length > |buffer| then None
            else if FromBe16(buffer[offset..offset + 2]) == tag then Some(buffer[at..at + length])
            else Find(buffer[at + length..], tag)
  {
    var rest := buffer[offset..];
    var length := FromBe32(buffer[offset + 2..offset + HEADER_SIZE]);
    assert rest[..2] == buffer[offset..offset + 2];
    assert rest[2..6] == buffer[offset + 2..offset + HEADER_SIZE];
    if offset + HEADER_SIZE + length <= |buffer| {
      assert rest[HEADER_SIZE..HEADER_SIZE + length] == buffer[offset + HEADER_SIZE..offset + HEADER_SIZE + length];
      assert rest[HEADER_SIZE + length..] == buffer[offset + HEADER_SIZE + length..];
    }
  }

  /** One unfolding of the search over a stream that starts with an encoded entry. */
  lemma FindStep(e: Entry, rest: Bytes, tag: Word16)
    ensures Find(EncodeOne(e) + rest, tag) == if e.tag == tag then Some(e.value) else Find(rest, tag)
  {
    var s := EncodeOne(e) + rest;
    assert s[..2] == Be16(e.tag);
    assert s[2..6] == Be32(|e.value|);
    Be32RoundTrip(|e.value|);
    assert s[HEADER_SIZE..HEADER_SIZE + |e.value|] == e.value;
    assert s[HEADER_SIZE + |e.value|..] == rest;
  }

  /** Searching an encoding, even one followed by further bytes, finds the first
      value with the tag. */
  lemma {:induction false} FindInEncoding(es: seq<Entry>, rest: Bytes, tag: Word16)
    ensures Find(Encode(es) + rest, tag) ==
            if FirstWithTag(es, tag).Some? then FirstWithTag(es, tag) else Find(rest, tag)
  {
    if es == [] {
      assert Encode(es) + rest == rest;
    } else {
      assert Encode(es) + rest == EncodeOne(es[0]) + (Encode(es[1..]) + rest);
      FindStep(es[0], Encode(es[1..]) + rest, tag);
      FindInEncoding(es[1..], rest, tag);
    }
  }

  /** A buffer that starts with well-framed entries of other tags followed by an
      entry (tag, value). */
  ghost predicate FramedPrefix(buffer: Bytes, es: seq<Entry>, rest: Bytes, tag: Word16, value: Bytes) {
    && |value| < 0x1_0000_0000
    && FirstWithTag(es, tag).None?
    && buffer == Encode(es) + EncodeOne(Entry(tag, value)) + rest
  }

  /** Exact meaning of a successful search on arbitrary bytes. */
  lemma FindIff(buffer: Bytes, tag: Word16, value: Bytes)
    ensures Find(buffer, tag) == Some(value) <==>
            exists es: seq<Entry>, rest: Bytes :: FramedPrefix(buffer, es, rest, tag, value)
  {
    forall es: seq<Entry>, rest: Bytes | FramedPrefix(buffer, es, rest, tag, value)
      ensures Find(buffer, tag) == Some(value)
    {
      FramedIsFound(buffer, es, rest, tag, value);
    }
    if Find(buffer, tag) == Some(value) {
      var es, rest := FoundIsFramed(buffer, tag, value);
    }
  }

  lemma FramedIsFound(buffer: Bytes, es: seq<Entry>, rest: Bytes, tag: Word16, value: Bytes)
    requires FramedPrefix(buffer, es, rest, tag, value)
    ensures Find(buffer, tag) == Some(value)
  {
    var e: Entry := Entry(tag, value);
    FindStep(e, rest, tag);
    FindInEncoding(es, EncodeOne(e) + rest, tag);
    ConcatAssoc(Encode(es), EncodeOne(e), rest);
  }

  lemma ConcatAssoc(a: Bytes, b: Bytes, c: Bytes)
    ensures a + b + c == a + (b + c)
  {
  }

  lemma {:induction false} FoundIsFramed(buffer: Bytes, tag: Word16, value: Bytes)
    returns (es: seq<Entry>, rest: Bytes)
    requires Find(buffer, tag) == Some(value)
    ensures FramedPrefix(buffer, es, rest, tag, value)
    decreases |buffer|
  {
    var e, tail := SplitFirst(buffer, tag);
    if e.tag == tag {
      es, rest := [], tail;
    } else {
      es, rest := FoundIsFramed(tail, tag, value);
      FramedCons(e, tail, es, rest, tag, value);
      es := [e] + es;
    }
  }

  lemma FramedCons(e: Entry, tail: Bytes, es: seq<Entry>, rest: Bytes, tag: Word16, value: Bytes)
    requires e.tag != tag
    requires FramedPrefix(tail, es, rest, tag, value)
    ensures FramedPrefix(EncodeOne(e) + tail, [e] + es, rest, tag, value)
  {
    var found := EncodeOne(Entry(tag, value));
    assert ([e] + es)[1..] == es;
    assert EncodeOne(e) + (Encode(es) + found + rest) == (EncodeOne(e) + Encode(es)) + found + rest;
  }

  lemma SplitFirst(buffer: Bytes, tag: Word16) returns (e: Entry, tail: Bytes)
    requires Find(buffer, tag).Some?
    ensures |tail| < |buffer| && buffer == EncodeOne(e) + tail
    ensures Find(buffer, tag) == if e.tag == tag then Some(e.value) else Find(tail, tag)
  {
    var length := FromBe32(buffer[2..6]);
    e := Entry(FromBe16(buffer[..2]), buffer[HEADER_SIZE..HEADER_SIZE + length]);
    tail := buffer[HEADER_SIZE + length..];
    Be32Inverse(buffer[2..6]);
    Be16Inverse(buffer[..2]);
    FourParts(buffer, HEADER_SIZE + length);
    FindStep(e, tail, tag);
  }

  lemma FourParts(buffer: Bytes, n: nat)
    requires HEADER_SIZE <= n <= |buffer|
    ensures buffer == (buffer[..2] + buffer[2..6] + buffer[6..n]) + buffer[n..]
  {
  }
}
