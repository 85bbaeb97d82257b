/** The version 0 encoders and parsers as the program runs them: buffers filled at a moving offset and loops
    over uint64 offsets. Each is tied to the function of V0Codec it computes. */
module V0Binary {
  import opened Batches
  import opened NitroBytes
  import opened V0Codec

  method EncodeV0MessageAndIndex<M>(codec: Codec<M>, message: V0MessageAndIndex<M>) returns (result: Option<Bytes>)
    ensures result == EncodeMessage(codec, message)
  {
    var encoded := codec.encode(message.message);
    if encoded.None? {
      return None;
    }
    var encodedLen := |encoded.value|;
    var bytes := new byte[encodedLen + LEN_SIZE + INDEX_SIZE];
    var length := bytes.Length;
    var offset := 0;
    Copy(bytes, offset, U64(message.pos));
    offset := offset + INDEX_SIZE;
    Copy(bytes, offset, U64(encodedLen));
    offset := offset + LEN_SIZE;
    Copy(bytes, offset, encoded.value);
    offset := offset + encodedLen;
    assert offset == length;
    result := Some(bytes[..]);
    assert bytes[..] == FrameBytes(message.pos, encoded.value);
  }

  /** All pieces, one after the other. */
  function Join(pieces: seq<Bytes>): Bytes {
    if pieces == [] then [] else Join(pieces[..|pieces| - 1]) + pieces[|pieces| - 1]
  }

  lemma JoinMore(pieces: seq<Bytes>, piece: Bytes)
    ensures Join(pieces + [piece]) == Join(pieces) + piece
  {
  }

  lemma {:induction false} JoinPrefix(pieces: seq<Bytes>, k: nat)
    requires k <= |pieces|
    ensures |Join(pieces[..k])| <= |Join(pieces)|
  {
    if k == |pieces| {
      assert pieces[..k] == pieces;
    } else {
      JoinPrefix(pieces[..|pieces| - 1], k);
      assert pieces[..|pieces| - 1][..k] == pieces[..k];
    }
  }

  /** The second half of the list encoders: copy the pieces into one buffer of their total size. */
  method Concatenate(pieces: seq<Bytes>, size: nat) returns (result: Bytes)
    requires size == |Join(pieces)|
    ensures result == Join(pieces)
  {
    var bytes := new byte[size];
    var offset := 0;
    for k := 0 to |pieces|
      invariant offset == |Join(pieces[..k])| <= size
      invariant bytes[..offset] == Join(pieces[..k])
    {
      JoinPrefix(pieces, k + 1);
      assert pieces[..k + 1] == pieces[..k] + [pieces[k]];
      JoinMore(pieces[..k], pieces[k]);
      Copy(bytes, offset, pieces[k]);
      offset := offset + |pieces[k]|;
      assert bytes[..offset] == Join(pieces[..k]) + pieces[k];
    }
    assert pieces[..|pieces|] == pieces;
    assert offset == size;
    result := bytes[..];
  }

  lemma {:induction false} EncodeMessagesMore<M>(codec: Codec<M>, ms: seq<V0MessageAndIndex<M>>,
                                                 m: V0MessageAndIndex<M>)
    ensures EncodeMessages(codec, ms + [m]) ==
      (if EncodeMessages(codec, ms).Some? && EncodeMessage(codec, m).Some?
       then Some(EncodeMessages(codec, ms).value + EncodeMessage(codec, m).value) else None)
  {
    if ms == [] {
      assert ms + [m] == [m] && [m][1..] == [];
      if EncodeMessage(codec, m).Some? {
        var bytes := EncodeMessage(codec, m).value;
        assert bytes + [] == bytes == [] + bytes;
      }
    } else {
      EncodeMessagesMore(codec, ms[1..], m);
      assert (ms + [m])[1..] == ms[1..] + [m];
      var first, rest, last := EncodeMessage(codec, ms[0]), EncodeMessages(codec, ms[1..]), EncodeMessage(codec, m);
      if first.Some? && rest.Some? && last.Some? {
        assert first.value + (rest.value + last.value) == first.value + rest.value + last.value;
      }
    }
  }

  lemma {:induction false} EncodeMessagesFails<M>(codec: Codec<M>, ms: seq<V0MessageAndIndex<M>>, k: nat)
    requires k < |ms| && EncodeMessage(codec, ms[k]).None?
    ensures EncodeMessages(codec, ms) == None
  {
    if k > 0 {
      EncodeMessagesFails(codec, ms[1..], k - 1);
    }
  }

  method EncodeV0MessageAndIndexes<M>(codec: Codec<M>, messages: seq<V0MessageAndIndex<M>>)
    returns (result: Option<Bytes>)
    ensures result == EncodeMessages(codec, messages)
  {
    var encodedMessage: seq<Bytes> := [];
    var size := 0;
    for k := 0 to |messages|
      invariant size == |Join(encodedMessage)|
      invariant EncodeMessages(codec, messages[..k]) == Some(Join(encodedMessage))
    {
      var bytes := EncodeV0MessageAndIndex(codec, messages[k]);
      if bytes.None? {
        EncodeMessagesFails(codec, messages, k);
        return None;
      }
      assert messages[..k + 1] == messages[..k] + [messages[k]];
      EncodeMessagesMore(codec, messages[..k], messages[k]);
      JoinMore(encodedMessage, bytes.value);
      size := size + |bytes.value|;
      encodedMessage := encodedMessage + [bytes.value];
    }
    assert messages[..|messages|] == messages;
    var joined := Concatenate(encodedMessage, size);
    result := Some(joined);
  }

  method EncodeV0SignatureAndMessages<M>(codec: Codec<M>, m: V0SignatureAndMessages<M>) returns (result: Option<Bytes>)
    ensures result == EncodeV0(codec, m)
  {
    hide EncodeMessages;
    hide U64;
    var encodedMessages := EncodeV0MessageAndIndexes(codec, m.messages);
    if encodedMessages.None? {
      return None;
    }
    var signatureLength := |m.signature|;
    var bytes := new byte[signatureLength + LEN_SIZE + |encodedMessages.value|];
    var length := bytes.Length;
    var offset := 0;
    Copy(bytes, offset, U64(signatureLength));
    offset := offset + LEN_SIZE;
    assert bytes[..offset] == U64(signatureLength);
    Copy(bytes, offset, m.signature);
    offset := offset + signatureLength;
    Copy(bytes, offset, encodedMessages.value);
    offset := offset + |encodedMessages.value|;
    assert offset == length && bytes[..offset] == bytes[..];
    result := Some(bytes[..]);
  }

  // ---------- parsing ----------

  method ParseV0MessageAndIndex<M>(codec: Codec<M>, data: Bytes) returns (result: Parsed<V0MessageAndIndex<M>>)
    requires |data| <= MAX_SLICE
    ensures result == ParseMessage(codec, data)
  {
    var length: Uint64 := |data|;
    var offset: Uint64 := 0;
    if CanSafelyReadElements(length, offset, INDEX_SIZE + LEN_SIZE) {
      return Err(NotEnoughBytes, offset);
    }
    var index := ReadU64(data[offset..]);
    offset := offset + INDEX_SIZE;
    var messageLength := ReadU64(data[offset..]);
    offset := offset + LEN_SIZE;
    if messageLength == 0 {
      return Err(NoMessageData, offset);
    }
    if CanSafelyReadElements(length, offset, messageLength) {
      return Err(NotEnoughBytes, offset);
    }
    var messageData := data[offset..offset + messageLength];
    offset := offset + messageLength;
    var message := codec.decode(messageData);
    if message.None? {
      return Err(BodyRejected, offset);
    }
    result := Ok(V0MessageAndIndex(index, message.value), offset);
  }

  lemma PrependTwice<M>(ms: seq<M>, read: nat, ms': seq<M>, read': nat, r: Parsed<seq<M>>)
    ensures Prepend(ms, read, Prepend(ms', read', r)) == Prepend(ms + ms', read + read', r)
    ensures Prepend([], 0, r) == r
  {
    if r.Ok? {
      assert ms + (ms' + r.value) == ms + ms' + r.value;
      assert [] + r.value == r.value;
    }
  }

  /** One pass of the parse loop: at least sixteen bytes are consumed, or the parse ends. */
  lemma ParseMessagesStep<M>(codec: Codec<M>, data: Bytes, messages: seq<V0MessageAndIndex<M>>, offset: nat)
    requires offset < |data|
    ensures
      var total := Prepend(messages, offset, ParseMessages(codec, data[offset..]));
      match ParseMessage(codec, data[offset..])
      case Ok(message, read) =>
        && 16 <= read <= |data| - offset
        && total == Prepend(messages + [message], offset + read, ParseMessages(codec, data[offset + read..]))
      case Err(error, read) =>
        if error == NoMessageData then
          && 16 <= read <= |data| - offset
          && total == Prepend(messages, offset + read, ParseMessages(codec, data[offset + read..]))
        else total == Err(error, offset)
  {
    hide ParseMessage;
    var rest := data[offset..];
    var read := ParseMessage(codec, rest).read;
    assert rest[read..] == data[offset + read..];
    match ParseMessage(codec, rest)
    case Ok(message, _) => PrependTwice(messages, offset, [message], read, ParseMessages(codec, rest[read..]));
    case Err(_, _) =>
      PrependTwice(messages, offset, [], read, ParseMessages(codec, rest[read..]));
      assert messages + [] == messages;
  }

  method ParseV0MessageAndIndexes<M>(codec: Codec<M>, data: Bytes) returns (result: Parsed<seq<V0MessageAndIndex<M>>>)
    requires |data| <= MAX_SLICE
    ensures result == ParseMessages(codec, data)
  {
    hide ParseMessage;
    var length: Uint64 := |data|;
    var offset: Uint64 := 0;
    var messages: seq<V0MessageAndIndex<M>> := [];
    PrependTwice([], 0, [], 0, ParseMessages(codec, data));
    assert data[0..] == data;
    while offset < length
      invariant offset <= length
      invariant ParseMessages(codec, data) == Prepend(messages, offset, ParseMessages(codec, data[offset..]))
    {
      ParseMessagesStep(codec, data, messages, offset);
      var message := ParseV0MessageAndIndex(codec, data[offset..]);
      if message.Err? && message.error == NoMessageData {
        offset := offset + message.read;
        continue;
      }
      if message.Err? {
        return Err(message.error, offset);
      }
      offset := offset + message.read;
      messages := messages + [message.value];
    }
    assert messages + [] == messages;
    result := Ok(messages, offset);
  }

  method ParseV0SignatureAndMessages<M>(codec: Codec<M>, keccak: Bytes -> Hash, data: Bytes)
    returns (result: Parsed<V0SignatureAndMessages<M>>)
    requires |data| <= MAX_SLICE
    ensures result == ParseV0(codec, keccak, data)
  {
    var length: Uint64 := |data|;
    var offset: Uint64 := 0;
    if CanSafelyReadElements(length, offset, LEN_SIZE) {
      return Err(NotEnoughBytes, offset);
    }
    var signatureLength := ReadU64(data[offset..]);
    offset := offset + LEN_SIZE;
    if CanSafelyReadElements(length, offset, signatureLength) {
      return Err(NotEnoughBytes, offset);
    }
    var signature := data[offset..offset + signatureLength];
    offset := offset + signatureLength;
    var userDataHash := keccak(data[offset..]);
    var messages := ParseV0MessageAndIndexes(codec, data[offset..]);
    if messages.Err? {
      return Err(messages.error, offset);
    }
    AcceptsExactlyWire(codec, data[offset..]);
    offset := offset + messages.read;
    if offset != length {
      return Err(LengthMismatch, offset);
    }
    result := Ok(V0SignatureAndMessages(signature, userDataHash, messages.value), offset);
  }
}
