/** The version 0 payload: a signature and a list of indexed messages, length-prefixed. */
module V0Codec {
  import opened Batches
  import opened NitroBytes

  /** A body codec (RLP or JSON): encoding may fail, decoding may reject. */
  datatype Codec<!M> = Codec(encode: M -> Option<Bytes>, decode: Bytes -> Option<M>)

  /** Decoding undoes encoding, and no encoding is empty or longer than a slice can be. */
  ghost predicate Lawful<M(!new)>(codec: Codec<M>) {
    forall m | codec.encode(m).Some? ::
      && codec.decode(codec.encode(m).value) == Some(m)
      && 0 < |codec.encode(m).value| <= MAX_SLICE
  }

  /** Encoding undoes decoding: a body has one encoding only. */
  ghost predicate Canonical<M>(codec: Codec<M>) {
    forall b: Bytes | codec.decode(b).Some? :: codec.encode(codec.decode(b).value) == Some(b)
  }

  datatype V0MessageAndIndex<M> = V0MessageAndIndex(pos: Uint64, message: M)

  datatype V0SignatureAndMessages<M> = V0SignatureAndMessages(
    signature: Bytes,
    hash: Hash,
    messages: seq<V0MessageAndIndex<M>>)

  datatype ParseError = NotEnoughBytes | NoMessageData | BodyRejected | LengthMismatch | VersionMismatch | UnknownFormat

  /** The outcome of a parser, with the number of bytes it reports as read. */
  datatype Parsed<+T> = Ok(value: T, read: nat) | Err(error: ParseError, read: nat)

  // ---------- encoding ----------

  function FrameBytes(index: Uint64, body: Bytes): Bytes {
    U64(index) + U64(|body|) + body
  }

  function EncodeMessage<M>(codec: Codec<M>, m: V0MessageAndIndex<M>): Option<Bytes> {
    match codec.encode(m.message)
    case None => None
    case Some(body) => Some(FrameBytes(m.pos, body))
  }

  function EncodeMessages<M>(codec: Codec<M>, ms: seq<V0MessageAndIndex<M>>): Option<Bytes> {
    if ms == [] then Some([])
    else
      var first := EncodeMessage(codec, ms[0]);
      var rest := EncodeMessages(codec, ms[1..]);
      if first.None? || rest.None? then None else Some(first.value + rest.value)
  }

  function EncodeV0<M>(codec: Codec<M>, v: V0SignatureAndMessages<M>): Option<Bytes> {
    match EncodeMessages(codec, v.messages)
    case None => None
    case Some(ms) => Some(U64(|v.signature|) + v.signature + ms)
  }

  // ---------- parsing ----------

  function ParseMessage<M>(codec: Codec<M>, data: Bytes): (r: Parsed<V0MessageAndIndex<M>>)
    ensures r.read <= |data|
    ensures r.Ok? || r.error == NoMessageData ==> r.read >= INDEX_SIZE + LEN_SIZE
  {
    if |data| < INDEX_SIZE + LEN_SIZE then Err(NotEnoughBytes, 0)
    else
      var index := ReadU64(data);
      var length := ReadU64(data[INDEX_SIZE..]);
      var offset := INDEX_SIZE + LEN_SIZE;
      if length == 0 then Err(NoMessageData, offset)
      else if length > |data| - offset then Err(NotEnoughBytes, offset)
      else
        match codec.decode(data[offset..offset + length])
        case None => Err(BodyRejected, offset + length)
        case Some(message) => Ok(V0MessageAndIndex(index, message), offset + length)
  }

  function Prepend<M>(ms: seq<M>, read: nat, r: Parsed<seq<M>>): Parsed<seq<M>> {
    match r
    case Ok(value, read') => Ok(ms + value, read + read')
    case Err(error, read') => Err(error, read + read')
  }

  function ParseMessages<M>(codec: Codec<M>, data: Bytes): (r: Parsed<seq<V0MessageAndIndex<M>>>)
    decreases |data|
  {
    if data == [] then Ok([], 0)
    else
      match ParseMessage(codec, data)
      case Ok(message, read) => Prepend([message], read, ParseMessages(codec, data[read..]))
      case Err(error, read) =>
        if error == NoMessageData then Prepend([], read, ParseMessages(codec, data[read..]))
        else Err(error, 0)
  }

  /** keccak is the hash of the part the signature covers. */
  function ParseV0<M>(codec: Codec<M>, keccak: Bytes -> Hash, data: Bytes): (r: Parsed<V0SignatureAndMessages<M>>) {
    if |data| < LEN_SIZE then Err(NotEnoughBytes, 0)
    else
      var length := ReadU64(data);
      if length > |data| - LEN_SIZE then Err(NotEnoughBytes, LEN_SIZE)
      else
        var start := LEN_SIZE + length;
        match ParseMessages(codec, data[start..])
        case Err(error, _) => Err(error, start)
        case Ok(messages, read) =>
          if start + read != |data| then Err(LengthMismatch, start + read)
          else Ok(V0SignatureAndMessages(data[LEN_SIZE..start], keccak(data[start..]), messages), start + read)
  }

  // ---------- the grammar: a concatenation of frames ----------

  /** A frame as it lies on the wire. */
  datatype Frame = Frame(index: Uint64, body: Bytes)

  function Wire(fs: seq<Frame>): Bytes {
    if fs == [] then [] else FrameBytes(fs[0].index, fs[0].body) + Wire(fs[1..])
  }

  ghost predicate Sized(fs: seq<Frame>) {
    forall f | f in fs :: |f.body| <= MAX_UINT64
  }

  /** Every body that is there decodes. */
  predicate AllDecode<M>(codec: Codec<M>, fs: seq<Frame>) {
    forall f | f in fs :: f.body != [] ==> codec.decode(f.body).Some?
  }

  /** The messages of the frames that have a body. */
  function Messages<M>(codec: Codec<M>, fs: seq<Frame>): seq<V0MessageAndIndex<M>>
    requires AllDecode(codec, fs)
  {
    if fs == [] then []
    else (if fs[0].body == [] then [] else [V0MessageAndIndex(fs[0].index, codec.decode(fs[0].body).value)])
         + Messages(codec, fs[1..])
  }

  /** Where the parts of a frame lie. */
  lemma FrameLayout(f: Frame, rest: Bytes)
    requires |f.body| <= MAX_UINT64
    ensures
      var data := FrameBytes(f.index, f.body) + rest;
      && |data| >= 16 + |f.body|
      && ReadU64(data) == f.index && ReadU64(data[8..]) == |f.body|
      && data[16..16 + |f.body|] == f.body && data[16 + |f.body|..] == rest
  {
    var data := FrameBytes(f.index, f.body) + rest;
    ReadOfU64(f.index, U64(|f.body|) + f.body + rest);
    assert data == U64(f.index) + (U64(|f.body|) + f.body + rest);
    ReadOfU64(|f.body|, f.body + rest);
    assert data[8..] == U64(|f.body|) + (f.body + rest);
  }

  lemma FirstFrame<M>(codec: Codec<M>, f: Frame, rest: Bytes)
    requires |f.body| <= MAX_UINT64 && (f.body != [] ==> codec.decode(f.body).Some?)
    ensures ParseMessage(codec, FrameBytes(f.index, f.body) + rest)
         == if f.body == [] then Err(NoMessageData, 16)
            else Ok(V0MessageAndIndex(f.index, codec.decode(f.body).value), 16 + |f.body|)
    ensures (FrameBytes(f.index, f.body) + rest)[16 + |f.body|..] == rest
  {
    FrameLayout(f, rest);
  }

  /** Parsing a concatenation of frames gives their messages, in order, and consumes everything. */
  lemma {:induction false} ParseOfWire<M>(codec: Codec<M>, fs: seq<Frame>)
    requires Sized(fs) && AllDecode(codec, fs)
    ensures ParseMessages(codec, Wire(fs)) == Ok(Messages(codec, fs), |Wire(fs)|)
  {
    if fs != [] {
      assert fs == [fs[0]] + fs[1..];
      FirstFrame(codec, fs[0], Wire(fs[1..]));
      ParseOfWire(codec, fs[1..]);
    }
  }

  /** A frame that parses, or is skipped, lies at the front of the data. */
  lemma ParsedFrame<M>(codec: Codec<M>, data: Bytes) returns (r: (Frame, nat))
    requires ParseMessage(codec, data).Ok? || ParseMessage(codec, data).error == NoMessageData
    ensures r.1 == ParseMessage(codec, data).read && r.1 <= |data|
    ensures data == FrameBytes(r.0.index, r.0.body) + data[r.1..]
    ensures |r.0.body| <= MAX_UINT64 && (r.0.body != [] ==> codec.decode(r.0.body).Some?)
  {
    var read := ParseMessage(codec, data).read;
    var f := Frame(ReadU64(data), data[16..read]);
    U64OfRead(data);
    U64OfRead(data[8..]);
    hide U64, ReadU64;
    assert data[8..][8..] == data[16..] == f.body + data[read..];
    ConcatAssociates(U64(f.index), U64(|f.body|), f.body + data[read..]);
    ConcatAssociates(U64(f.index) + U64(|f.body|), f.body, data[read..]);
    r := (f, read);
  }

  /** Whatever parses is a concatenation of frames whose bodies decode. */
  lemma {:induction false} ParsedIsWire<M>(codec: Codec<M>, data: Bytes) returns (fs: seq<Frame>)
    requires ParseMessages(codec, data).Ok?
    ensures Sized(fs) && AllDecode(codec, fs) && Wire(fs) == data
    ensures ParseMessages(codec, data) == Ok(Messages(codec, fs), |data|)
    decreases |data|
  {
    hide ParseMessage;
    hide FrameBytes;
    hide ReadU64;
    if data == [] {
      fs := [];
    } else {
      var r := ParsedFrame(codec, data);
      var (f, read) := r;
      var rest := ParsedIsWire(codec, data[read..]);
      fs := [f] + rest;
      assert fs[1..] == rest;
      ParseOfWire(codec, fs);
    }
  }

  /** The parser accepts exactly the concatenations of frames whose bodies decode; then it has consumed the
      whole input. */
  lemma AcceptsExactlyWire<M>(codec: Codec<M>, data: Bytes)
    ensures ParseMessages(codec, data).Ok?
       <==> exists fs :: Sized(fs) && AllDecode(codec, fs) && Wire(fs) == data
    ensures ParseMessages(codec, data).Ok? ==> ParseMessages(codec, data).read == |data|
  {
    if ParseMessages(codec, data).Ok? {
      var fs := ParsedIsWire(codec, data);
    }
    if fs :| Sized(fs) && AllDecode(codec, fs) && Wire(fs) == data {
      ParseOfWire(codec, fs);
    }
  }

  // ---------- which error ----------

  /** What is wrong with data that begins with no frame to keep or skip; None when nothing is. */
  function Fault<M>(codec: Codec<M>, data: Bytes): Option<ParseError> {
    if data == [] then None
    else if |data| < 16 || ReadU64(data[8..]) > |data| - 16 then Some(NotEnoughBytes)
    else
      var length := ReadU64(data[8..]);
      if length > 0 && codec.decode(data[16..16 + length]).None? then Some(BodyRejected) else None
  }

  /** The input is good frames up to a fault. */
  ghost predicate FaultyAfter<M>(codec: Codec<M>, data: Bytes, fs: seq<Frame>, rest: Bytes, error: ParseError) {
    && Sized(fs) && AllDecode(codec, fs) && data == Wire(fs) + rest
    && Fault(codec, rest) == Some(error)
  }

  lemma FirstIsFaulty<M>(codec: Codec<M>, data: Bytes)
    requires data != []
    ensures
      var r := ParseMessage(codec, data);
      Fault(codec, data) == if r.Ok? || r.error == NoMessageData then None else Some(r.error)
  {
  }

  /** When the frames are refused, the error is that of the first fault: too few bytes for a header, too few for
      the body it claims, or a body that does not decode; what was read is what lies before it. */
  lemma {:induction false} ErrorIsFirstFault<M>(codec: Codec<M>, data: Bytes) returns (fs: seq<Frame>, rest: Bytes)
    requires ParseMessages(codec, data).Err?
    ensures FaultyAfter(codec, data, fs, rest, ParseMessages(codec, data).error)
    ensures ParseMessages(codec, data).read == |Wire(fs)|
    decreases |data|
  {
    FirstIsFaulty(codec, data);
    hide ParseMessage, Fault;
    if ParseMessage(codec, data).Ok? || ParseMessage(codec, data).error == NoMessageData {
      var r := ParsedFrame(codec, data);
      var (f, read) := r;
      var fs', rest' := ErrorIsFirstFault(codec, data[read..]);
      fs, rest := [f] + fs', rest';
      assert fs[1..] == fs';
      ConcatAssociates(FrameBytes(f.index, f.body), Wire(fs'), rest');
    } else {
      fs, rest := [], data;
    }
  }

  /** The errors of the signed payload: too short for the length or for the signature it claims, or the fault of
      its frames. A length mismatch is never reported, because frames that parse are consumed whole. */
  lemma V0ErrorIsExact<M>(codec: Codec<M>, keccak: Bytes -> Hash, data: Bytes)
    ensures
      var r := ParseV0(codec, keccak, data);
      if |data| < 8 || ReadU64(data) > |data| - 8 then r.Err? && r.error == NotEnoughBytes
      else
        var frames := ParseMessages(codec, data[8 + ReadU64(data)..]);
        && (r.Ok? <==> frames.Ok?)
        && (r.Err? ==> r.error == frames.error)
  {
    if |data| >= 8 && ReadU64(data) <= |data| - 8 {
      AcceptsExactlyWire(codec, data[8 + ReadU64(data)..]);
    }
  }

  // ---------- empty frames do not matter ----------

  /** The input with every zero-length frame deleted, up to the point where the framing breaks. */
  function DeleteEmpty(data: Bytes): (r: Bytes)
    ensures |r| <= |data|
    decreases |data|
  {
    if |data| < 16 then data
    else
      var length := ReadU64(data[8..]);
      if length == 0 then DeleteEmpty(data[16..])
      else if length > |data| - 16 then data
      else data[..16 + length] + DeleteEmpty(data[16 + length..])
  }

  /** The same messages, or the same error. */
  predicate SameOutcome<T(==)>(p: Parsed<T>, q: Parsed<T>) {
    match p
    case Ok(value, _) => q.Ok? && q.value == value
    case Err(error, _) => q.Err? && q.error == error
  }

  lemma EmptyFirst<M>(codec: Codec<M>, data: Bytes)
    requires |data| >= 16 && ReadU64(data[8..]) == 0
    ensures SameOutcome(ParseMessages(codec, data), ParseMessages(codec, data[16..]))
  {
    var r := ParseMessages(codec, data[16..]);
    assert r.Ok? ==> [] + r.value == r.value;
    assert ParseMessages(codec, data) == Prepend([], 16, r);
  }

  lemma SameFrameFirst<M>(codec: Codec<M>, data: Bytes, data': Bytes, length: nat)
    requires 16 + length <= |data| && 16 + length <= |data'| && data[..16 + length] == data'[..16 + length]
    requires length == ReadU64(data[8..]) > 0
    requires SameOutcome(ParseMessages(codec, data[16 + length..]), ParseMessages(codec, data'[16 + length..]))
    ensures SameOutcome(ParseMessages(codec, data), ParseMessages(codec, data'))
  {
    hide ParseMessage, ReadU64;
    SameHeadSameFrame(codec, data, data', length);
  }

  /** For every byte string, parsing gives what parsing without the zero-length frames gives. */
  lemma {:induction false} EmptyFramesDoNotMatter<M>(codec: Codec<M>, data: Bytes)
    ensures SameOutcome(ParseMessages(codec, data), ParseMessages(codec, DeleteEmpty(data)))
    decreases |data|
  {
    hide ParseMessages, ReadU64;
    if |data| >= 16 {
      var length := ReadU64(data[8..]);
      if length == 0 {
        EmptyFirst(codec, data);
        EmptyFramesDoNotMatter(codec, data[16..]);
      } else if length <= |data| - 16 {
        var head, rest := data[..16 + length], data[16 + length..];
        EmptyFramesDoNotMatter(codec, rest);
        assert (head + DeleteEmpty(rest))[16 + length..] == DeleteEmpty(rest);
        SameFrameFirst(codec, data, head + DeleteEmpty(rest), length);
      }
    }
  }

  lemma SameHeadSameFrame<M>(codec: Codec<M>, data: Bytes, data': Bytes, length: nat)
    requires 16 + length <= |data| && 16 + length <= |data'| && data[..16 + length] == data'[..16 + length]
    requires length == ReadU64(data[8..])
    ensures
      var r := ParseMessage(codec, data);
      && r == ParseMessage(codec, data')
      && (r.Ok? ==> r.read == 16 + length)
      && (r.Err? && r.error == NoMessageData ==> length == 0)
  {
    assert data[..8] == data[..16 + length][..8] == data'[..8];
    assert data[8..][..8] == data[..16 + length][8..16] == data'[8..][..8];
    assert data[16..16 + length] == data[..16 + length][16..] == data'[16..16 + length];
  }

  // ---------- round trips ----------

  function FramesOf<M>(codec: Codec<M>, ms: seq<V0MessageAndIndex<M>>): seq<Frame>
    requires EncodeMessages(codec, ms).Some?
  {
    if ms == [] then [] else [Frame(ms[0].pos, codec.encode(ms[0].message).value)] + FramesOf(codec, ms[1..])
  }

  lemma {:induction false} EncodedIsWire<M(!new)>(codec: Codec<M>, ms: seq<V0MessageAndIndex<M>>)
    requires Lawful(codec) && EncodeMessages(codec, ms).Some?
    ensures
      var fs := FramesOf(codec, ms);
      && EncodeMessages(codec, ms).value == Wire(fs)
      && Sized(fs) && AllDecode(codec, fs) && Messages(codec, fs) == ms
  {
    if ms != [] {
      EncodedIsWire(codec, ms[1..]);
      OneMoreEncoded(codec, ms[0], FramesOf(codec, ms[1..]));
      assert FramesOf(codec, ms) == [Frame(ms[0].pos, codec.encode(ms[0].message).value)] + FramesOf(codec, ms[1..]);
    }
  }

  lemma OneMoreEncoded<M(!new)>(codec: Codec<M>, m: V0MessageAndIndex<M>, fs: seq<Frame>)
    requires Lawful(codec) && codec.encode(m.message).Some? && Sized(fs) && AllDecode(codec, fs)
    ensures
      var f := Frame(m.pos, codec.encode(m.message).value);
      && Sized([f] + fs) && AllDecode(codec, [f] + fs)
      && Wire([f] + fs) == FrameBytes(f.index, f.body) + Wire(fs)
      && Messages(codec, [f] + fs) == [m] + Messages(codec, fs)
  {
    var f := Frame(m.pos, codec.encode(m.message).value);
    assert ([f] + fs)[1..] == fs;
    assert codec.decode(f.body) == Some(m.message) && f.body != [];
  }

  lemma ParseV0OfParts<M>(codec: Codec<M>, keccak: Bytes -> Hash, signature: Bytes, rest: Bytes)
    requires |signature| <= MAX_UINT64
    ensures
      var data := U64(|signature|) + signature + rest;
      ParseV0(codec, keccak, data) ==
        match ParseMessages(codec, rest)
        case Err(error, _) => Err(error, 8 + |signature|)
        case Ok(messages, _) => Ok(V0SignatureAndMessages(signature, keccak(rest), messages), |data|)
  {
    var data := U64(|signature|) + signature + rest;
    ReadOfU64(|signature|, signature + rest);
    assert data == U64(|signature|) + (signature + rest);
    assert data[8..8 + |signature|] == signature && data[8 + |signature|..] == rest;
    AcceptsExactlyWire(codec, rest);
  }

  /** Parsing undoes encoding: same signature, same positions and messages in the same order. */
  lemma V0RoundTrip<M(!new)>(codec: Codec<M>, keccak: Bytes -> Hash, v: V0SignatureAndMessages<M>)
    requires Lawful(codec) && |v.signature| <= MAX_SLICE && EncodeV0(codec, v).Some?
    ensures
      var data := EncodeV0(codec, v).value;
      ParseV0(codec, keccak, data)
      == Ok(v.(hash := keccak(EncodeMessages(codec, v.messages).value)), |data|)
  {
    EncodedIsWire(codec, v.messages);
    ParseOfWire(codec, FramesOf(codec, v.messages));
    ParseV0OfParts(codec, keccak, v.signature, EncodeMessages(codec, v.messages).value);
  }

  /** The frames that have a body. */
  function Filled(fs: seq<Frame>): seq<Frame> {
    if fs == [] then []
    else if fs[0].body == [] then Filled(fs[1..])
    else [fs[0]] + Filled(fs[1..])
  }

  lemma {:induction false} ReencodedFrames<M>(codec: Codec<M>, fs: seq<Frame>)
    requires Canonical(codec) && AllDecode(codec, fs)
    ensures EncodeMessages(codec, Messages(codec, fs)) == Some(Wire(Filled(fs)))
  {
    if fs != [] {
      ReencodedFrames(codec, fs[1..]);
      var ms, rest := Messages(codec, fs), Messages(codec, fs[1..]);
      if fs[0].body == [] {
        assert ms == rest;
      } else {
        assert codec.encode(codec.decode(fs[0].body).value) == Some(fs[0].body);
        var m := V0MessageAndIndex(fs[0].index, codec.decode(fs[0].body).value);
        assert ms == [m] + rest && ms[1..] == rest;
        assert EncodeMessage(codec, m) == Some(FrameBytes(fs[0].index, fs[0].body));
        assert Filled(fs)[1..] == Filled(fs[1..]);
      }
    }
  }

  lemma {:induction false} FilledSize(fs: seq<Frame>)
    ensures |Wire(Filled(fs))| <= |Wire(fs)|
    ensures |Wire(Filled(fs))| == |Wire(fs)| ==> forall f | f in fs :: f.body != []
    ensures (forall f | f in fs :: f.body != []) ==> Filled(fs) == fs
  {
    if fs != [] {
      FilledSize(fs[1..]);
      assert fs == [fs[0]] + fs[1..];
      if fs[0].body != [] {
        assert Filled(fs)[1..] == Filled(fs[1..]);
      }
    }
  }

  lemma SignatureFirst<M>(codec: Codec<M>, keccak: Bytes -> Hash, data: Bytes)
    requires ParseV0(codec, keccak, data).Ok?
    ensures
      var v := ParseV0(codec, keccak, data).value;
      var start := 8 + |v.signature|;
      && start <= |data| && ReadU64(data) == |v.signature|
      && data[8..] == v.signature + data[start..]
      && ParseMessages(codec, data[start..]).Ok? && v.messages == ParseMessages(codec, data[start..]).value
  {
  }

  /** A payload that parses is signature and frames, laid out one after the other. */
  lemma ParsedV0IsParts<M>(codec: Codec<M>, keccak: Bytes -> Hash, data: Bytes) returns (fs: seq<Frame>)
    requires ParseV0(codec, keccak, data).Ok?
    ensures Sized(fs) && AllDecode(codec, fs)
    ensures
      var v := ParseV0(codec, keccak, data).value;
      && |v.signature| <= MAX_UINT64
      && data == U64(|v.signature|) + v.signature + Wire(fs) && v.messages == Messages(codec, fs)
  {
    SignatureFirst(codec, keccak, data);
    U64OfRead(data);
    hide ParseV0, ParseMessages, U64, ReadU64;
    var v := ParseV0(codec, keccak, data).value;
    fs := ParsedIsWire(codec, data[8 + |v.signature|..]);
    ConcatAssociates(U64(|v.signature|), v.signature, Wire(fs));
  }

  /** Encoding undoes parsing exactly when the input has no empty frame, if a body has one encoding only. */
  lemma V0Reencodes<M(!new)>(codec: Codec<M>, keccak: Bytes -> Hash, data: Bytes) returns (fs: seq<Frame>)
    requires Canonical(codec) && ParseV0(codec, keccak, data).Ok?
    ensures
      var v := ParseV0(codec, keccak, data).value;
      && data == U64(|v.signature|) + v.signature + Wire(fs)
      && (EncodeV0(codec, v) == Some(data) <==> forall f | f in fs :: f.body != [])
  {
    fs := ParsedV0IsParts(codec, keccak, data);
    ReencodedFrames(codec, fs);
    FilledSize(fs);
  }
}
