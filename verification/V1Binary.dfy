/** The version 1 encoders and parsers and the version dispatch as the program runs them. */
module V1Binary {
  import opened Batches
  import opened NitroBytes
  import opened V0Codec
  import opened V0Binary
  import opened V1Codec

  method EncodeEmbeddedJSON<T>(codec: Codec<T>, value: T) returns (result: Option<Bytes>)
    ensures result == EncodeEmbedded(codec, value)
  {
    var encoded := codec.encode(value);
    if encoded.None? {
      return None;
    }
    var encodedLength := |encoded.value|;
    var bytes := new byte[encodedLength + LEN_SIZE];
    var length := bytes.Length;
    var offset := 0;
    Copy(bytes, offset, U64(encodedLength));
    offset := offset + LEN_SIZE;
    Copy(bytes, offset, encoded.value);
    offset := offset + encodedLength;
    assert offset == length;
    result := Some(bytes[..]);
    assert bytes[..] == Embed(encoded.value);
  }

  method ParseEmbeddedJSON<T>(codec: Codec<T>, data: Bytes) returns (result: Parsed<T>)
    requires |data| <= MAX_SLICE
    ensures result == ParseEmbedded(codec, data)
  {
    var length: Uint64 := |data|;
    var offset: Uint64 := 0;
    if CanSafelyReadElements(length, offset, LEN_SIZE) {
      return Err(NotEnoughBytes, offset);
    }
    var jsonContentLength := ReadU64(data[offset..]);
    offset := offset + LEN_SIZE;
    if CanSafelyReadElements(length, offset, jsonContentLength) {
      return Err(NotEnoughBytes, offset);
    }
    var jsonContent := data[offset..offset + jsonContentLength];
    offset := offset + jsonContentLength;
    var value := codec.decode(jsonContent);
    if value.None? {
      return Err(BodyRejected, offset);
    }
    result := Ok(value.value, offset);
  }

  lemma {:induction false} EncodeFeedFails<T>(codec: Codec<T>, ms: seq<T>, k: nat)
    requires k < |ms| && EncodeEmbedded(codec, ms[k]).None?
    ensures EncodeFeed(codec, ms) == None
  {
    if k < |ms| - 1 {
      EncodeFeedFails(codec, ms[..|ms| - 1], k);
    }
  }

  method EncodeV1BroadcastFeedMessages<T>(codec: Codec<T>, messages: seq<T>) returns (result: Option<Bytes>)
    ensures result == EncodeFeed(codec, messages)
  {
    var buffer: seq<Bytes> := [];
    var size := 0;
    for k := 0 to |messages|
      invariant size == |Join(buffer)|
      invariant EncodeFeed(codec, messages[..k]) == Some(Join(buffer))
    {
      var encoded := EncodeEmbeddedJSON(codec, messages[k]);
      if encoded.None? {
        EncodeFeedFails(codec, messages, k);
        return None;
      }
      assert messages[..k + 1][..k] == messages[..k];
      JoinMore(buffer, encoded.value);
      size := size + |encoded.value|;
      buffer := buffer + [encoded.value];
    }
    assert messages[..|messages|] == messages;
    var joined := Concatenate(buffer, size);
    result := Some(joined);
  }

  /** One pass of the parse loop: at least eight bytes are consumed, or the parse ends. */
  lemma ParseFeedStep<T>(codec: Codec<T>, data: Bytes, messages: seq<T>, offset: nat)
    requires offset < |data|
    ensures
      var total := Prepend(messages, offset, ParseFeed(codec, data[offset..]));
      match ParseEmbedded(codec, data[offset..])
      case Ok(message, read) =>
        && 8 <= read <= |data| - offset
        && total == Prepend(messages + [message], offset + read, ParseFeed(codec, data[offset + read..]))
      case Err(error, read) => read <= |data| - offset && total == Err(error, offset + read)
  {
    var rest := data[offset..];
    var read := ParseEmbedded(codec, rest).read;
    assert rest[read..] == data[offset + read..];
    if ParseEmbedded(codec, rest).Ok? {
      PrependTwice(messages, offset, [ParseEmbedded(codec, rest).value], read, ParseFeed(codec, rest[read..]));
    }
  }

  method ParseV1BroadcastFeedMessages<T>(codec: Codec<T>, data: Bytes) returns (result: Parsed<seq<T>>)
    requires |data| <= MAX_SLICE
    ensures result == ParseFeed(codec, data)
  {
    hide ParseEmbedded;
    var length: Uint64 := |data|;
    var offset: Uint64 := 0;
    var messages: seq<T> := [];
    PrependTwice([], 0, [], 0, ParseFeed(codec, data));
    assert data[0..] == data;
    while offset < length
      invariant offset <= length
      invariant ParseFeed(codec, data) == Prepend(messages, offset, ParseFeed(codec, data[offset..]))
    {
      ParseFeedStep(codec, data, messages, offset);
      var message := ParseEmbeddedJSON(codec, data[offset..]);
      offset := offset + message.read;
      if message.Err? {
        return Err(message.error, offset);
      }
      messages := messages + [message.value];
    }
    assert messages + [] == messages;
    result := Ok(messages, offset);
  }

  method ParseV1HeaderAndBroadcastFeedMessages<T>(header: Codec<string>, codec: Codec<T>, data: Bytes)
    returns (result: Parsed<seq<T>>)
    requires |data| <= MAX_SLICE
    ensures result == ParseV1(header, codec, data)
  {
    var offset: Uint64 := 0;
    var first := ParseEmbeddedJSON(header, data);
    if first.Err? || first.value != V1_HEADER {
      return Err(if first.Err? then first.error else VersionMismatch, offset);
    }
    offset := offset + first.read;
    var messages := ParseV1BroadcastFeedMessages(codec, data[offset..]);
    FeedAcceptsExactly(codec, data[offset..]);
    PrependTwice([], offset, [], 0, messages);
    if messages.Err? {
      return Err(messages.error, offset + messages.read);
    }
    offset := offset + messages.read;
    assert [] + messages.value == messages.value;
    result := Ok(messages.value, offset);
  }

  method EncodeV1HeaderAndBroadcastMessages<T>(header: Codec<string>, codec: Codec<T>, messages: seq<T>)
    returns (result: Option<Bytes>)
    ensures result == EncodeV1(header, codec, messages)
  {
    hide EncodeEmbedded;
    hide EncodeFeed;
    var encodedHeader := EncodeEmbeddedJSON(header, V1_HEADER);
    if encodedHeader.None? {
      return None;
    }
    var encodedMessages := EncodeV1BroadcastFeedMessages(codec, messages);
    if encodedMessages.None? {
      return None;
    }
    var bytes := new byte[|encodedHeader.value| + |encodedMessages.value|];
    var length := bytes.Length;
    var offset := 0;
    Copy(bytes, offset, encodedHeader.value);
    offset := offset + |encodedHeader.value|;
    assert bytes[..offset] == encodedHeader.value;
    Copy(bytes, offset, encodedMessages.value);
    offset := offset + |encodedMessages.value|;
    assert offset == length && bytes[..offset] == bytes[..];
    result := Some(bytes[..]);
  }

  method ParseNitroMessagesFromHotShot<M>(c: Codecs<M>, payload: Bytes) returns (result: Parsed<Payload<M>>)
    requires |payload| <= MAX_SLICE
    ensures result == ParsePayload(c, payload)
  {
    if VERSION1_PEEK <= payload {
      var v1 := ParseV1HeaderAndBroadcastFeedMessages(c.header, c.feed, payload);
      return if v1.Err? then Err(v1.error, v1.read) else Ok(V1Payload(v1.value), v1.read);
    }
    if VERSION0_PEEK <= payload {
      var v0 := ParseV0SignatureAndMessages(c.body, c.keccak, payload);
      return if v0.Err? then Err(v0.error, v0.read) else Ok(V0Payload(v0.value), v0.read);
    }
    return Err(UnknownFormat, 0);
  }
}
