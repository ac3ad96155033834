/** Receiving a state blob over the control channel socket
    (ctrlchannel_receive_state of src/swtpm/ctrlchannel.c). */
module SocketTransfer {
  import opened Bytes

  /** Data bytes that fit behind the request header. */
  const REQ_DATA_SIZE := 4088
  const MAX_STATE_SIZE := 512 * 1024

  /** What read_eintr returns: an error, or the bytes that were there; no bytes at all
      means that the peer closed the connection. */
  datatype Read = Broken | Received(data: Bytes)
  {
    predicate More() { Received? && data != [] }
  }

  datatype Outcome =
    | Waiting                  // the next read blocks
    | Closed                   // the read failed; no response is sent
    | Refused(rc: Rc)
    | Deliver(blob: Bytes)     // SWTPM_NVRAM_SetStateBlob is called

  /** The bytes of the reads up to the first one that has none. */
  function Stream(input: seq<Read>): Bytes {
    if input == [] || !input[0].More() then [] else input[0].data + Stream(input[1..])
  }

  /** The first packet and the first `k` reads hold exactly `length` bytes. */
  predicate Covers(length: nat, first: Bytes, input: seq<Read>, k: nat) {
    && k <= |input| && (forall i :: 0 <= i < k ==> input[i].More())
    && |first| + |Stream(input[..k])| == length
  }

  lemma {:induction false} StreamAppend(input: seq<Read>, k: nat)
    requires k < |input| && input[k].More() && forall i :: 0 <= i < k ==> input[i].More()
    ensures Stream(input[..k + 1]) == Stream(input[..k]) + input[k].data
  {
    if k == 0 {
      assert input[..1][1..] == [];
    } else {
      StreamAppend(input[1..], k - 1);
      assert input[..k + 1][1..] == input[1..][..k];
      assert input[..k][1..] == input[1..][..k - 1];
    }
  }

  /** Reads that carry data make the stream longer: no length is reached twice. */
  lemma {:induction false} StreamGrows(input: seq<Read>, j: nat, k: nat)
    requires j < k <= |input| && forall i :: 0 <= i < k ==> input[i].More()
    ensures |Stream(input[..j])| < |Stream(input[..k])|
    decreases k
  {
    StreamAppend(input, k - 1);
    if j < k - 1 {
      StreamGrows(input, j, k - 1);
    }
  }

  lemma CoversIsUnique(length: nat, first: Bytes, input: seq<Read>, j: nat, k: nat)
    requires Covers(length, first, input, j) && Covers(length, first, input, k)
    ensures j == k
  {
    if j < k {
      StreamGrows(input, j, k);
    } else if k < j {
      StreamGrows(input, k, j);
    }
  }

  /** The receive loop.  SetStateBlob is reached exactly when the packet and some of the
      reads hold exactly the announced number of bytes, in whatever pieces they come,
      and then with exactly those bytes; too many bytes, an early end and a failing read
      never reach it. */
  method ReceiveState(length: Word32, first: Bytes, input: seq<Read>) returns (out: Outcome, consumed: nat)
    ensures consumed <= |input|
    ensures out.Deliver? <==>
            && length <= MAX_STATE_SIZE && |first| <= REQ_DATA_SIZE
            && exists k: nat :: Covers(length, first, input, k)
    ensures out.Deliver? ==>
            Covers(length, first, input, consumed) && out.blob == first + Stream(input[..consumed])
    ensures out.Closed? ==> consumed > 0 && input[consumed - 1].Broken?
    ensures out.Waiting? ==> consumed == |input| && |first| + |Stream(input)| < length
    ensures out.Refused? ==> out.rc == if length > MAX_STATE_SIZE then Fail else BadParameter
  {
    consumed := 0;
    if length > MAX_STATE_SIZE {
      return Refused(Fail), consumed;
    }
    if |first| > REQ_DATA_SIZE {
      return Refused(BadParameter), consumed;
    }
    if length == 0 {
      if first != [] {
        return Refused(BadParameter), consumed;
      }
      assert Covers(length, first, input, 0);
      return Deliver([]), consumed;
    }
    out, consumed := ReceiveData(length, first, input);
  }

  method ReceiveData(length: Word32, first: Bytes, input: seq<Read>) returns (out: Outcome, consumed: nat)
    requires 0 < length
    ensures consumed <= |input|
    ensures out.Deliver? <==> exists k: nat :: Covers(length, first, input, k)
    ensures out.Deliver? ==>
            Covers(length, first, input, consumed) && out.blob == first + Stream(input[..consumed])
    ensures out.Closed? ==> consumed > 0 && input[consumed - 1].Broken?
    ensures out.Waiting? ==> consumed == |input| && |first| + |Stream(input)| < length
    ensures out.Refused? ==> out.rc == BadParameter
  {
    var blob := new Byte[length](_ => 0);
    var offset: nat, remain: nat, n := 0, length, first;
    consumed := 0;
    ghost var arrived := first;
    assert input[..0] == [];
    while true
      invariant 0 < remain && offset + remain == length
      invariant consumed <= |input| && forall i :: 0 <= i < consumed ==> input[i].More()
      invariant arrived == first + Stream(input[..consumed])
      invariant arrived == blob[..offset] + n
      invariant consumed > 0 ==> |first| + |Stream(input[..consumed - 1])| == offset
      decreases |input| - consumed
    {
      if |n| > remain {
        TooMuch(length, first, input, consumed);
        return Refused(BadParameter), consumed;
      }
      Memcpy(blob, offset, n);
      assert blob[..offset + |n|] == arrived;
      offset, remain := offset + |n|, remain - |n|;
      if remain == 0 {
        assert blob[..] == arrived;
        assert Covers(length, first, input, consumed);
        return Deliver(blob[..]), consumed;
      }
      if consumed == |input| || !input[consumed].More() {
        TooLittle(length, first, input, consumed);
        if consumed == |input| {
          assert input[..consumed] == input;
          return Waiting, consumed;
        }
        out := if input[consumed].Broken? then Closed else Refused(BadParameter);
        return out, consumed + 1;
      }
      n := input[consumed].data;
      StreamAppend(input, consumed);
      arrived := arrived + n;
      consumed := consumed + 1;
    }
  }

  lemma TooMuch(length: nat, first: Bytes, input: seq<Read>, consumed: nat)
    requires consumed <= |input| && forall i :: 0 <= i < consumed ==> input[i].More()
    requires |first| + |Stream(input[..consumed])| > length
    requires consumed > 0 ==> |first| + |Stream(input[..consumed - 1])| < length
    ensures !exists k: nat :: Covers(length, first, input, k)
  {
    forall k: nat | Covers(length, first, input, k)
      ensures false
    {
      if k > consumed {
        StreamGrows(input, consumed, k);
      } else if k < consumed - 1 {
        StreamGrows(input, k, consumed - 1);
      }
    }
  }

  lemma TooLittle(length: nat, first: Bytes, input: seq<Read>, consumed: nat)
    requires consumed <= |input| && forall i :: 0 <= i < consumed ==> input[i].More()
    requires |first| + |Stream(input[..consumed])| < length
    requires consumed == |input| || !input[consumed].More()
    ensures !exists k: nat :: Covers(length, first, input, k)
  {
    forall k: nat | Covers(length, first, input, k)
      ensures false
    {
      if k < consumed {
        StreamGrows(input, k, consumed);
      }
    }
  }
}
