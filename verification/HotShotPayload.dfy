/** Building, signing and reading back a HotShot payload. */
module HotShotPayload {
  import opened Batches
  import opened NitroBytes
  import opened V0Codec

  const MAX_ATTESTATION_QUOTE_SIZE: nat := 4 * 1024

  type Fetcher = Uint64 -> Option<Bytes>

  /** Every message of the list can be fetched and is no longer than a slice. */
  predicate Fetches(fetch: Fetcher, ps: seq<Uint64>) {
    forall p | p in ps :: fetch(p).Some? && |fetch(p).value| <= MAX_SLICE
  }

  /** The frames of the positions, bodies as fetched. */
  function FramesAt(fetch: Fetcher, ps: seq<Uint64>): (fs: seq<Frame>)
    requires Fetches(fetch, ps)
    ensures |fs| == |ps| && forall i | 0 <= i < |ps| :: fs[i] == Frame(ps[i], fetch(ps[i]).value)
  {
    seq(|ps|, i requires 0 <= i < |ps| => Frame(ps[i], fetch(ps[i]).value))
  }

  /** The first k positions can be fetched and fit, with the allowance of 4 KiB for the quote, in maxSize. */
  predicate PrefixFits(fetch: Fetcher, ps: seq<Uint64>, maxSize: int, k: nat)
    requires k <= |ps|
  {
    Fetches(fetch, ps[..k]) && |Wire(FramesAt(fetch, ps[..k]))| + 4 * 1024 <= maxSize
  }

  lemma {:induction false} WireMore(fs: seq<Frame>, f: Frame)
    ensures Wire(fs + [f]) == Wire(fs) + FrameBytes(f.index, f.body)
  {
    if fs == [] {
      assert fs + [f] == [f] && [f][1..] == [];
    } else {
      WireMore(fs[1..], f);
      assert (fs + [f])[1..] == fs[1..] + [f];
    }
  }

  lemma FramesMore(fetch: Fetcher, ps: seq<Uint64>, k: nat)
    requires k < |ps| && Fetches(fetch, ps[..k + 1])
    ensures Fetches(fetch, ps[..k])
    ensures
      var f := Frame(ps[k], fetch(ps[k]).value);
      && Wire(FramesAt(fetch, ps[..k + 1])) == Wire(FramesAt(fetch, ps[..k])) + FrameBytes(f.index, f.body)
      && |FrameBytes(f.index, f.body)| == 16 + |f.body|
  {
    assert ps[k] in ps[..k + 1];
    assert forall p | p in ps[..k] :: p in ps[..k + 1];
    var f := Frame(ps[k], fetch(ps[k]).value);
    assert FramesAt(fetch, ps[..k + 1]) == FramesAt(fetch, ps[..k]) + [f];
    WireMore(FramesAt(fetch, ps[..k]), f);
  }

  /** A prefix of a prefix that fits also fits. */
  lemma {:induction false} ShorterPrefixFits(fetch: Fetcher, ps: seq<Uint64>, maxSize: int, j: nat, k: nat)
    requires j <= k <= |ps| && PrefixFits(fetch, ps, maxSize, k)
    ensures PrefixFits(fetch, ps, maxSize, j)
  {
    if j < k {
      FramesMore(fetch, ps, k - 1);
      ShorterPrefixFits(fetch, ps, maxSize, j, k - 1);
    }
  }

  /** Once a prefix does not fit, no longer one does. */
  lemma NoLongerPrefixFits(fetch: Fetcher, ps: seq<Uint64>, maxSize: int, j: nat)
    requires j <= |ps| && !PrefixFits(fetch, ps, maxSize, j)
    ensures forall k: nat | k <= |ps| && PrefixFits(fetch, ps, maxSize, k) :: k < j
  {
    forall k: nat | k <= |ps| && PrefixFits(fetch, ps, maxSize, k)
      ensures k < j
    {
      if j <= k {
        ShorterPrefixFits(fetch, ps, maxSize, j, k);
      }
    }
  }

  /** What one more position means for the payload. */
  lemma OneMorePosition(fetch: Fetcher, ps: seq<Uint64>, maxSize: int, k: nat, payload: Bytes)
    requires k < |ps| && Fetches(fetch, ps[..k]) && payload == Wire(FramesAt(fetch, ps[..k]))
    requires fetch(ps[k]).Some? ==> |fetch(ps[k]).value| <= MAX_SLICE
    ensures fetch(ps[k]).None? ==> !PrefixFits(fetch, ps, maxSize, k + 1)
    ensures
      fetch(ps[k]).Some? ==>
        var body := fetch(ps[k]).value;
        && Fetches(fetch, ps[..k + 1])
        && payload + U64(ps[k]) + U64(|body|) + body == Wire(FramesAt(fetch, ps[..k + 1]))
        && (PrefixFits(fetch, ps, maxSize, k + 1)
            <==> |payload| + LEN_SIZE + |body| + INDEX_SIZE + MAX_ATTESTATION_QUOTE_SIZE <= maxSize)
  {
    hide U64, Wire;
    assert ps[..k + 1] == ps[..k] + [ps[k]];
    if fetch(ps[k]).Some? {
      FramesMore(fetch, ps, k);
      var body := fetch(ps[k]).value;
      assert payload + U64(ps[k]) + U64(|body|) + body == payload + FrameBytes(ps[k], body);
    } else {
      assert ps[k] in ps[..k + 1];
    }
  }

  /** The greedy builder: the payload is the wire form of the first msgCnt positions, it fits when anything is
      in it, and no longer prefix can be fetched and fits. */
  method BuildRawHotShotPayload(msgPositions: seq<Uint64>, msgFetcher: Fetcher, maxSize: int)
    returns (payload: Bytes, msgCnt: nat)
    requires forall p | p in msgPositions :: msgFetcher(p).Some? ==> |msgFetcher(p).value| <= MAX_SLICE
    ensures msgCnt <= |msgPositions| && Fetches(msgFetcher, msgPositions[..msgCnt])
    ensures payload == Wire(FramesAt(msgFetcher, msgPositions[..msgCnt]))
    ensures msgCnt > 0 ==> |payload| + MAX_ATTESTATION_QUOTE_SIZE <= maxSize
    ensures forall k: nat | k <= |msgPositions| && PrefixFits(msgFetcher, msgPositions, maxSize, k) :: k <= msgCnt
  {
    payload := [];
    msgCnt := 0;
    assert Wire([]) == [] && Fetches(msgFetcher, []);
    hide U64, Wire, Fetches, PrefixFits;
    while msgCnt < |msgPositions|
      invariant msgCnt <= |msgPositions| && Fetches(msgFetcher, msgPositions[..msgCnt])
      invariant payload == Wire(FramesAt(msgFetcher, msgPositions[..msgCnt]))
      invariant msgCnt > 0 ==> |payload| + MAX_ATTESTATION_QUOTE_SIZE <= maxSize
    {
      var p := msgPositions[msgCnt];
      OneMorePosition(msgFetcher, msgPositions, maxSize, msgCnt, payload);
      var msgBytes := msgFetcher(p);
      if msgBytes.None? {
        NoLongerPrefixFits(msgFetcher, msgPositions, maxSize, msgCnt + 1);
        break;
      }
      if |payload| + LEN_SIZE + |msgBytes.value| + INDEX_SIZE + MAX_ATTESTATION_QUOTE_SIZE > maxSize {
        NoLongerPrefixFits(msgFetcher, msgPositions, maxSize, msgCnt + 1);
        break;
      }
      payload := payload + U64(p) + U64(|msgBytes.value|) + msgBytes.value;
      msgCnt := msgCnt + 1;
    }
  }

  /** SignHotShotPayload: the quote goes first, behind its length. */
  function SignHotShotPayload(unsigned: Bytes, signer: Bytes -> Option<Bytes>): (r: Option<Bytes>) {
    match signer(unsigned)
    case None => None
    case Some(quote) => Some(U64(|quote|) + quote + unsigned)
  }

  /** A byte string is the wire form of at most one list of frames. */
  lemma {:induction false} WireInjective(fs: seq<Frame>, gs: seq<Frame>)
    requires Sized(fs) && Sized(gs) && Wire(fs) == Wire(gs)
    ensures fs == gs
  {
    if fs != [] && gs != [] {
      FrameLayout(fs[0], Wire(fs[1..]));
      FrameLayout(gs[0], Wire(gs[1..]));
      WireInjective(fs[1..], gs[1..]);
      assert fs == [fs[0]] + fs[1..] && gs == [gs[0]] + gs[1..];
    }
  }

  /** A signed payload reads back, as version 0, exactly when every body that is there decodes; then it gives
      the quote as signature and the positions and messages in order, minus the empty ones. */
  lemma SignedPayloadReadsBack<M>(codec: Codec<M>, keccak: Bytes -> Hash, fs: seq<Frame>,
                                  signer: Bytes -> Option<Bytes>)
    requires Sized(fs) && signer(Wire(fs)).Some? && |signer(Wire(fs)).value| <= MAX_SLICE
    ensures
      var quote := signer(Wire(fs)).value;
      var data := SignHotShotPayload(Wire(fs), signer).value;
      && (ParseV0(codec, keccak, data).Ok? <==> AllDecode(codec, fs))
      && (AllDecode(codec, fs) ==>
            ParseV0(codec, keccak, data)
            == Ok(V0SignatureAndMessages(quote, keccak(Wire(fs)), Messages(codec, fs)), |data|))
  {
    ParseV0OfParts(codec, keccak, signer(Wire(fs)).value, Wire(fs));
    if AllDecode(codec, fs) {
      ParseOfWire(codec, fs);
    } else if ParseMessages(codec, Wire(fs)).Ok? {
      var gs := ParsedIsWire(codec, Wire(fs));
      WireInjective(fs, gs);
    }
  }

  /** The whole trip: build, sign, parse. The signed payload keeps within maxSize as long as the quote and its
      length prefix keep within the allowance. */
  method BuildSignParse<M>(codec: Codec<M>, keccak: Bytes -> Hash, ps: seq<Uint64>, fetch: Fetcher, maxSize: int,
                           signer: Bytes -> Option<Bytes>)
    returns (signed: Option<Bytes>, msgCnt: nat)
    requires forall p | p in ps :: fetch(p).Some? ==> |fetch(p).value| <= MAX_SLICE
    requires forall b :: signer(b).Some? ==> |signer(b).value| <= MAX_SLICE
    ensures msgCnt <= |ps| && Fetches(fetch, ps[..msgCnt])
    ensures
      signed.Some? && AllDecode(codec, FramesAt(fetch, ps[..msgCnt])) ==>
        var fs := FramesAt(fetch, ps[..msgCnt]);
        signer(Wire(fs)).Some?
        && ParseV0(codec, keccak, signed.value)
           == Ok(V0SignatureAndMessages(signer(Wire(fs)).value, keccak(Wire(fs)), Messages(codec, fs)), |signed.value|)
    ensures
      signed.Some? && msgCnt > 0 ==>
        var quote := signer(Wire(FramesAt(fetch, ps[..msgCnt])));
        quote.Some? && (LEN_SIZE + |quote.value| <= MAX_ATTESTATION_QUOTE_SIZE ==> |signed.value| <= maxSize)
  {
    var payload: Bytes;
    payload, msgCnt := BuildRawHotShotPayload(ps, fetch, maxSize);
    signed := SignHotShotPayload(payload, signer);
    ghost var fs := FramesAt(fetch, ps[..msgCnt]);
    if signed.Some? {
      SignedPayloadReadsBack(codec, keccak, fs, signer);
    }
  }
}
