/** The version 1 payload: a header and a list of feed messages, each an embedded JSON value, and the choice
    between the two versions. */
module V1Codec {
  import opened Batches
  import opened NitroBytes
  import opened V0Codec

  /** A feed message. CumulativeSumMsgSize, which is not serialised, is not part of it. */
  datatype FeedMessage<M> = FeedMessage(
    sequenceNumber: Uint64,
    message: M,
    signature: Bytes,
    signatureV2: Bytes,
    blockMetadata: Bytes,
    blockHash: Option<Hash>)

  type Feed<M> = seq<FeedMessage<M>>

  // ---------- embedded JSON ----------

  function Embed(json: Bytes): Bytes {
    U64(|json|) + json
  }

  function EncodeEmbedded<T>(codec: Codec<T>, value: T): Option<Bytes> {
    match codec.encode(value)
    case None => None
    case Some(json) => Some(Embed(json))
  }

  function ParseEmbedded<T>(codec: Codec<T>, data: Bytes): (r: Parsed<T>)
    ensures r.read <= |data|
    ensures r.Ok? ==> r.read >= LEN_SIZE
  {
    if |data| < LEN_SIZE then Err(NotEnoughBytes, 0)
    else
      var length := ReadU64(data);
      if length > |data| - LEN_SIZE then Err(NotEnoughBytes, LEN_SIZE)
      else
        match codec.decode(data[LEN_SIZE..LEN_SIZE + length])
        case None => Err(BodyRejected, LEN_SIZE + length)
        case Some(value) => Ok(value, LEN_SIZE + length)
  }

  function EncodeFeed<T>(codec: Codec<T>, ms: seq<T>): Option<Bytes> {
    if ms == [] then Some([])
    else
      var rest := EncodeFeed(codec, ms[..|ms| - 1]);
      var last := EncodeEmbedded(codec, ms[|ms| - 1]);
      if rest.None? || last.None? then None else Some(rest.value + last.value)
  }

  function ParseFeed<T>(codec: Codec<T>, data: Bytes): (r: Parsed<seq<T>>)
    decreases |data|
  {
    if data == [] then Ok([], 0)
    else
      match ParseEmbedded(codec, data)
      case Ok(message, read) => Prepend([message], read, ParseFeed(codec, data[read..]))
      case Err(error, read) => Err(error, read)
  }

  const V1_HEADER: string := "V1"

  function ParseV1Header(header: Codec<string>, data: Bytes): Parsed<string> {
    match ParseEmbedded(header, data)
    case Err(error, read) => Err(error, read)
    case Ok(value, read) => if value != V1_HEADER then Err(VersionMismatch, read) else Ok(value, read)
  }

  function EncodeV1<T>(header: Codec<string>, codec: Codec<T>, ms: seq<T>): Option<Bytes> {
    var first := EncodeEmbedded(header, V1_HEADER);
    var rest := EncodeFeed(codec, ms);
    if first.None? || rest.None? then None else Some(first.value + rest.value)
  }

  function ParseV1<T>(header: Codec<string>, codec: Codec<T>, data: Bytes): Parsed<seq<T>> {
    match ParseV1Header(header, data)
    case Err(error, _) => Err(error, 0)
    case Ok(_, read) => Prepend([], read, ParseFeed(codec, data[read..]))
  }

  // ---------- exactness ----------

  /** The wire form of a list of JSON values. */
  function FeedWire(js: seq<Bytes>): Bytes {
    if js == [] then [] else Embed(js[0]) + FeedWire(js[1..])
  }

  ghost predicate JsonSized(js: seq<Bytes>) {
    forall j | j in js :: |j| <= MAX_UINT64
  }

  predicate JsonDecodes<T>(codec: Codec<T>, js: seq<Bytes>) {
    forall j | j in js :: codec.decode(j).Some?
  }

  function Values<T>(codec: Codec<T>, js: seq<Bytes>): seq<T>
    requires JsonDecodes(codec, js)
  {
    if js == [] then [] else [codec.decode(js[0]).value] + Values(codec, js[1..])
  }

  lemma EmbeddedFirst<T>(codec: Codec<T>, json: Bytes, rest: Bytes)
    requires |json| <= MAX_UINT64 && codec.decode(json).Some?
    ensures ParseEmbedded(codec, Embed(json) + rest) == Ok(codec.decode(json).value, 8 + |json|)
    ensures (Embed(json) + rest)[8 + |json|..] == rest
  {
    var data := Embed(json) + rest;
    ReadOfU64(|json|, json + rest);
    assert data == U64(|json|) + (json + rest);
    assert data[8..8 + |json|] == json;
  }

  lemma {:induction false} ParseOfFeedWire<T>(codec: Codec<T>, js: seq<Bytes>)
    requires JsonSized(js) && JsonDecodes(codec, js)
    ensures ParseFeed(codec, FeedWire(js)) == Ok(Values(codec, js), |FeedWire(js)|)
  {
    if js != [] {
      assert js == [js[0]] + js[1..];
      EmbeddedFirst(codec, js[0], FeedWire(js[1..]));
      ParseOfFeedWire(codec, js[1..]);
    }
  }

  lemma ParsedEmbedded<T>(codec: Codec<T>, data: Bytes) returns (r: (Bytes, nat))
    requires ParseEmbedded(codec, data).Ok?
    ensures r.1 == ParseEmbedded(codec, data).read && r.1 <= |data|
    ensures data == Embed(r.0) + data[r.1..]
    ensures |r.0| <= MAX_UINT64 && codec.decode(r.0).Some?
  {
    var read := ParseEmbedded(codec, data).read;
    U64OfRead(data);
    assert data[8..] == data[8..read] + data[read..];
    r := (data[8..read], read);
  }

  lemma {:induction false} ParsedIsFeedWire<T>(codec: Codec<T>, data: Bytes) returns (js: seq<Bytes>)
    requires ParseFeed(codec, data).Ok?
    ensures JsonSized(js) && JsonDecodes(codec, js) && FeedWire(js) == data
    ensures ParseFeed(codec, data) == Ok(Values(codec, js), |data|)
    decreases |data|
  {
    hide ParseEmbedded;
    hide Embed;
    if data == [] {
      js := [];
    } else {
      var r := ParsedEmbedded(codec, data);
      var (j, read) := r;
      var rest := ParsedIsFeedWire(codec, data[read..]);
      js := [j] + rest;
      assert js[1..] == rest;
      ParseOfFeedWire(codec, js);
    }
  }

  /** The feed parser accepts exactly the concatenations of embedded values that decode, and consumes them. */
  lemma FeedAcceptsExactly<T>(codec: Codec<T>, data: Bytes)
    ensures ParseFeed(codec, data).Ok?
       <==> exists js :: JsonSized(js) && JsonDecodes(codec, js) && FeedWire(js) == data
    ensures ParseFeed(codec, data).Ok? ==> ParseFeed(codec, data).read == |data|
  {
    if ParseFeed(codec, data).Ok? {
      var js := ParsedIsFeedWire(codec, data);
    }
    if js :| JsonSized(js) && JsonDecodes(codec, js) && FeedWire(js) == data {
      ParseOfFeedWire(codec, js);
    }
  }

  /** The version 1 parser accepts exactly a header that reads as the version, then embedded values that decode. */
  lemma V1AcceptsExactly<T>(header: Codec<string>, codec: Codec<T>, data: Bytes)
    ensures ParseV1(header, codec, data).Ok? <==> exists json, js :: HeaderAndFeed(header, codec, data, json, js)
  {
    if ParseV1(header, codec, data).Ok? {
      var r := ParsedEmbedded(header, data);
      var js := ParsedIsFeedWire(codec, data[r.1..]);
      assert HeaderAndFeed(header, codec, data, r.0, js);
    }
    if json, js :| HeaderAndFeed(header, codec, data, json, js) {
      EmbeddedFirst(header, json, FeedWire(js));
      ParseOfFeedWire(codec, js);
    }
  }

  ghost predicate HeaderAndFeed<T>(header: Codec<string>, codec: Codec<T>, data: Bytes, json: Bytes, js: seq<Bytes>) {
    && |json| <= MAX_UINT64 && header.decode(json) == Some(V1_HEADER)
    && JsonSized(js) && JsonDecodes(codec, js) && data == Embed(json) + FeedWire(js)
  }

  /** What is wrong with data that begins with no embedded value that decodes. */
  function EmbeddedFault<T>(codec: Codec<T>, data: Bytes): Option<ParseError> {
    if |data| < 8 || ReadU64(data) > |data| - 8 then Some(NotEnoughBytes)
    else if codec.decode(data[8..8 + ReadU64(data)]).None? then Some(BodyRejected)
    else None
  }

  /** When the feed is refused, the error is that of the first faulty value. */
  lemma {:induction false} FeedErrorIsFirstFault<T>(codec: Codec<T>, data: Bytes)
    returns (js: seq<Bytes>, rest: Bytes)
    requires ParseFeed(codec, data).Err?
    ensures JsonSized(js) && JsonDecodes(codec, js) && data == FeedWire(js) + rest && rest != []
    ensures EmbeddedFault(codec, rest) == Some(ParseFeed(codec, data).error)
    ensures ParseFeed(codec, data).read == |FeedWire(js)| + ParseEmbedded(codec, rest).read
    decreases |data|
  {
    if ParseEmbedded(codec, data).Ok? {
      var r := ParsedEmbedded(codec, data);
      var (j, read) := r;
      hide ParseEmbedded, Embed, EmbeddedFault;
      var js', rest' := FeedErrorIsFirstFault(codec, data[read..]);
      js, rest := [j] + js', rest';
      assert js[1..] == js';
      ConcatAssociates(Embed(j), FeedWire(js'), rest');
    } else {
      js, rest := [], data;
    }
  }

  /** The errors of the version 1 parser: the fault of the header, another version, or the fault of the feed. */
  lemma V1ErrorIsExact<T>(header: Codec<string>, codec: Codec<T>, data: Bytes)
    ensures
      var r := ParseV1(header, codec, data);
      if EmbeddedFault(header, data).Some? then r == Err(EmbeddedFault(header, data).value, 0)
      else
        var length := ReadU64(data);
        if header.decode(data[8..8 + length]) != Some(V1_HEADER) then r == Err(VersionMismatch, 0)
        else
          var feed := ParseFeed(codec, data[8 + length..]);
          (r.Ok? <==> feed.Ok?) && (r.Err? ==> r.error == feed.error)
  {
  }

  // ---------- round trip ----------

  lemma {:induction false} FeedWireMore(js: seq<Bytes>, j: Bytes)
    ensures FeedWire(js + [j]) == FeedWire(js) + Embed(j)
  {
    if js == [] {
      assert js + [j] == [j] && [j][1..] == [];
    } else {
      FeedWireMore(js[1..], j);
      assert (js + [j])[1..] == js[1..] + [j];
    }
  }

  lemma {:induction false} ValuesMore<T>(codec: Codec<T>, js: seq<Bytes>, j: Bytes)
    requires JsonDecodes(codec, js) && codec.decode(j).Some?
    ensures JsonDecodes(codec, js + [j])
    ensures Values(codec, js + [j]) == Values(codec, js) + [codec.decode(j).value]
  {
    if js == [] {
      assert js + [j] == [j] && [j][1..] == [];
    } else {
      ValuesMore(codec, js[1..], j);
      assert (js + [j])[1..] == js[1..] + [j];
    }
  }

  lemma {:induction false} EncodedFeedIsWire<T(!new)>(codec: Codec<T>, ms: seq<T>) returns (js: seq<Bytes>)
    requires Lawful(codec) && EncodeFeed(codec, ms).Some?
    ensures EncodeFeed(codec, ms).value == FeedWire(js)
    ensures JsonSized(js) && JsonDecodes(codec, js) && Values(codec, js) == ms
  {
    if ms == [] {
      js := [];
    } else {
      var rest := EncodedFeedIsWire(codec, ms[..|ms| - 1]);
      var j := codec.encode(ms[|ms| - 1]).value;
      assert codec.decode(j) == Some(ms[|ms| - 1]);
      js := rest + [j];
      FeedWireMore(rest, j);
      ValuesMore(codec, rest, j);
    }
  }

  lemma ParseV1OfParts<T>(header: Codec<string>, codec: Codec<T>, json: Bytes, rest: Bytes)
    requires |json| <= MAX_UINT64 && header.decode(json) == Some(V1_HEADER)
    ensures ParseV1(header, codec, Embed(json) + rest) == Prepend([], 8 + |json|, ParseFeed(codec, rest))
  {
    EmbeddedFirst(header, json, rest);
  }

  /** Parsing undoes encoding: the same messages in the same order, and every byte consumed. */
  lemma V1RoundTrip<T(!new)>(header: Codec<string>, codec: Codec<T>, ms: seq<T>)
    requires Lawful(header) && Lawful(codec) && EncodeV1(header, codec, ms).Some?
    ensures
      var data := EncodeV1(header, codec, ms).value;
      ParseV1(header, codec, data) == Ok(ms, |data|)
  {
    hide ParseFeed, FeedWire, Values;
    var json := header.encode(V1_HEADER).value;
    assert header.decode(json) == Some(V1_HEADER);
    var js := EncodedFeedIsWire(codec, ms);
    ParseOfFeedWire(codec, js);
    ParseV1OfParts(header, codec, json, FeedWire(js));
    assert [] + ms == ms;
  }

  // ---------- choosing the version ----------

  const V1_JSON: Bytes := [34, 86, 49, 34]

  /** A big-endian 4 and "V1" in quotes. */
  const VERSION1_PEEK: Bytes := [0, 0, 0, 0, 0, 0, 0, 4, 34, 86, 49, 34]

  /** A big-endian 65, the size of a signature. */
  const VERSION0_PEEK: Bytes := [0, 0, 0, 0, 0, 0, 0, 65]

  datatype Payload<M> = V0Payload(v0: V0SignatureAndMessages<M>) | V1Payload(v1: Feed<M>)

  /** The oracles of a payload parser. */
  datatype Codecs<!M> = Codecs(
    header: Codec<string>,
    body: Codec<M>,
    feed: Codec<FeedMessage<M>>,
    keccak: Bytes -> Hash)

  ghost predicate LawfulCodecs<M(!new)>(c: Codecs<M>) {
    Lawful(c.header) && c.header.encode(V1_HEADER) == Some(V1_JSON) && Lawful(c.body) && Lawful(c.feed)
  }

  /** ParseNitroMessagesFromHotShot. */
  function ParsePayload<M>(c: Codecs<M>, payload: Bytes): Parsed<Payload<M>> {
    if VERSION1_PEEK <= payload then
      match ParseV1(c.header, c.feed, payload)
      case Err(error, read) => Err(error, read)
      case Ok(ms, read) => Ok(V1Payload(ms), read)
    else if VERSION0_PEEK <= payload then
      match ParseV0(c.body, c.keccak, payload)
      case Err(error, read) => Err(error, read)
      case Ok(v, read) => Ok(V0Payload(v), read)
    else Err(UnknownFormat, 0)
  }

  lemma SmallU64(n: byte)
    ensures U64(n) == [0, 0, 0, 0, 0, 0, 0, n]
  {
    assert BigEndian(0, 3) == [0, 0, 0];
    assert BigEndian(0, 5) == BigEndian(0, 3) + [0] + [0];
    assert BigEndian(0, 7) == BigEndian(0, 5) + [0] + [0];
    assert U64(n) == BigEndian(0, 7) + [n];
  }

  /** A version 0 payload with a 65-byte signature is recognised as such and comes back unchanged. */
  lemma V0Dispatched<M(!new)>(c: Codecs<M>, v: V0SignatureAndMessages<M>)
    requires LawfulCodecs(c) && |v.signature| == 65 && EncodeV0(c.body, v).Some?
    ensures
      var data := EncodeV0(c.body, v).value;
      ParsePayload(c, data)
      == Ok(V0Payload(v.(hash := c.keccak(EncodeMessages(c.body, v.messages).value))), |data|)
  {
    var data := EncodeV0(c.body, v).value;
    SmallU64(65);
    assert data[..8] == VERSION0_PEEK && data[7] == 65;
    assert VERSION0_PEEK <= data && VERSION1_PEEK[7] == 4;
    V0RoundTrip(c.body, c.keccak, v);
  }

  /** A version 1 payload is recognised as such and comes back unchanged. */
  lemma V1Dispatched<M(!new)>(c: Codecs<M>, ms: Feed<M>)
    requires LawfulCodecs(c) && EncodeV1(c.header, c.feed, ms).Some?
    ensures
      var data := EncodeV1(c.header, c.feed, ms).value;
      ParsePayload(c, data) == Ok(V1Payload(ms), |data|)
  {
    var data := EncodeV1(c.header, c.feed, ms).value;
    SmallU64(4);
    assert Embed(V1_JSON) == VERSION1_PEEK;
    assert VERSION1_PEEK <= data;
    V1RoundTrip(c.header, c.feed, ms);
  }

  /** The version 0 payloads: a 65-byte signature behind its length, then frames whose bodies decode. */
  ghost predicate V0Form<M>(c: Codecs<M>, payload: Bytes) {
    exists signature: Bytes, fs: seq<Frame> :: V0Parts(c, payload, signature, fs)
  }

  ghost predicate V0Parts<M>(c: Codecs<M>, payload: Bytes, signature: Bytes, fs: seq<Frame>) {
    |signature| == 65 && Sized(fs) && AllDecode(c.body, fs) && payload == U64(65) + signature + Wire(fs)
  }

  /** The version 1 payloads: the header, then embedded messages that decode. */
  ghost predicate V1Form<M>(c: Codecs<M>, payload: Bytes) {
    exists js: seq<Bytes> :: V1Parts(c, payload, js)
  }

  ghost predicate V1Parts<M>(c: Codecs<M>, payload: Bytes, js: seq<Bytes>) {
    JsonSized(js) && JsonDecodes(c.feed, js) && payload == VERSION1_PEEK + FeedWire(js)
  }

  lemma V0AcceptedIff<M>(c: Codecs<M>, payload: Bytes)
    ensures VERSION0_PEEK <= payload && ParseV0(c.body, c.keccak, payload).Ok? <==> V0Form(c, payload)
  {
    SmallU64(65);
    if VERSION0_PEEK <= payload && ParseV0(c.body, c.keccak, payload).Ok? {
      var fs := ParsedV0IsParts(c.body, c.keccak, payload);
      var v := ParseV0(c.body, c.keccak, payload).value;
      assert U64(|v.signature|) <= payload && U64(65) <= payload;
      ReadOfU64(65, payload[8..]);
      ReadOfU64(|v.signature|, payload[8..]);
      assert U64(65) + payload[8..] == payload == U64(|v.signature|) + payload[8..];
      assert V0Parts(c, payload, v.signature, fs);
    }
    if signature, fs :| V0Parts(c, payload, signature, fs) {
      ParseV0OfParts(c.body, c.keccak, signature, Wire(fs));
      ParseOfWire(c.body, fs);
    }
  }

  lemma V1AcceptedIff<M>(c: Codecs<M>, payload: Bytes)
    requires c.header.decode(V1_JSON) == Some(V1_HEADER)
    ensures VERSION1_PEEK <= payload && ParseV1(c.header, c.feed, payload).Ok? <==> V1Form(c, payload)
  {
    SmallU64(4);
    assert Embed(V1_JSON) == VERSION1_PEEK;
    if VERSION1_PEEK <= payload {
      var rest := payload[12..];
      assert payload == Embed(V1_JSON) + rest;
      ParseV1OfParts(c.header, c.feed, V1_JSON, rest);
      if ParseFeed(c.feed, rest).Ok? {
        var js := ParsedIsFeedWire(c.feed, rest);
        assert V1Parts(c, payload, js);
      }
    }
    if js :| V1Parts(c, payload, js) {
      assert payload[12..] == FeedWire(js);
      ParseOfFeedWire(c.feed, js);
    }
  }

  /** The dispatcher accepts exactly the payloads of the two forms, takes each for what it is, and refuses
      whatever begins with neither prefix as of unknown format, and whatever begins with one with the error of
      its parser. */
  lemma DispatchesExactly<M>(c: Codecs<M>, payload: Bytes)
    requires c.header.decode(V1_JSON) == Some(V1_HEADER)
    ensures
      var r := ParsePayload(c, payload);
      && (r.Ok? && r.value.V0Payload? <==> V0Form(c, payload))
      && (r.Ok? && r.value.V1Payload? <==> V1Form(c, payload))
      && (!(VERSION1_PEEK <= payload) && !(VERSION0_PEEK <= payload) <==> r == Err(UnknownFormat, 0))
      && (VERSION1_PEEK <= payload && r.Err? ==>
            r == Err(ParseV1(c.header, c.feed, payload).error, ParseV1(c.header, c.feed, payload).read))
      && (VERSION0_PEEK <= payload && r.Err? ==>
            r == Err(ParseV0(c.body, c.keccak, payload).error, ParseV0(c.body, c.keccak, payload).read))
  {
    V0AcceptedIff(c, payload);
    V1AcceptedIff(c, payload);
    assert VERSION1_PEEK[7] == 4 && VERSION0_PEEK[7] == 65;
    hide V0Form, V1Form, ParseV0, ParseV1;
  }
}
