/** From a transaction to the messages it yields: parsing, the signature checks and the iterator. */
module NitroExtract {
  import opened Batches
  import opened NitroBytes
  import opened V0Codec
  import opened V1Codec
  import opened NitroSpec

  /** Signature checks at an L1 height: one signature for a version 0 payload, one per message for version 1. */
  datatype Verifier<!M> = Verifier(
    v0: (Hash, Bytes, nat) -> bool,
    v1: (FeedMessage<M>, nat) -> bool)

  /** The version 1 messages whose signatures are valid, in order. */
  function ValidMessages<M>(verifier: Verifier<M>, l1Height: nat, ms: Feed<M>): (r: Feed<M>)
    ensures forall m | m in r :: m in ms && verifier.v1(m, l1Height)
    ensures forall m | m in ms && verifier.v1(m, l1Height) :: m in r
  {
    if ms == [] then []
    else
      var last := ms[|ms| - 1];
      assert ms == ms[..|ms| - 1] + [last];
      ValidMessages(verifier, l1Height, ms[..|ms| - 1]) + (if verifier.v1(last, l1Height) then [last] else [])
  }

  function Count<M>(payload: Payload<M>): nat {
    match payload
    case V0Payload(v) => |v.messages|
    case V1Payload(ms) => |ms|
  }

  /** The message at index i of a payload. */
  function MessageAt<M>(payload: Payload<M>, i: nat): Msg<M>
    requires i < Count(payload)
  {
    match payload
    case V0Payload(v) => Msg(v.messages[i].pos, v.messages[i].message)
    case V1Payload(ms) => Msg(ms[i].sequenceNumber, ms[i].message)
  }

  function MessagesFrom<M>(payload: Payload<M>, i: nat): (r: seq<Msg<M>>)
    requires i <= Count(payload)
    ensures |r| == Count(payload) - i && forall k | 0 <= k < |r| :: r[k] == MessageAt(payload, i + k)
    decreases Count(payload) - i
  {
    if i == Count(payload) then [] else [MessageAt(payload, i)] + MessagesFrom(payload, i + 1)
  }

  /** The payload after its signatures are verified; None when it is rejected as a whole. */
  function Verified<M>(verifier: Verifier<M>, payload: Payload<M>, l1Height: nat): Option<Payload<M>> {
    if Count(payload) == 0 then None
    else
      match payload
      case V0Payload(v) => if verifier.v0(v.hash, v.signature, l1Height) then Some(payload) else None
      case V1Payload(ms) => Some(V1Payload(ValidMessages(verifier, l1Height, ms)))
  }

  /** The messages a transaction yields: none when it does not parse, is empty, or is not validly signed. */
  function Extract<M>(codecs: Codecs<M>, verifier: Verifier<M>, tx: Bytes, l1Height: nat): seq<Msg<M>> {
    match ParsePayload(codecs, tx)
    case Err(_, _) => []
    case Ok(payload, _) =>
      match Verified(verifier, payload, l1Height)
      case None => []
      case Some(kept) => MessagesFrom(kept, 0)
  }

  // ---------- exactly which messages ----------

  /** Places in a list, in order. */
  ghost predicate Places(idx: seq<nat>, bound: nat) {
    && (forall k | 0 <= k < |idx| :: idx[k] < bound)
    && (forall j, k | 0 <= j < k < |idx| :: idx[j] < idx[k])
  }

  /** The places of the messages whose signature is accepted. */
  ghost predicate ValidAt<M>(verifier: Verifier<M>, l1Height: nat, ms: Feed<M>, idx: seq<nat>) {
    forall i: nat | i < |ms| :: i in idx <==> verifier.v1(ms[i], l1Height)
  }

  lemma OneMorePlace(idx: seq<nat>, n: nat)
    requires Places(idx, n)
    ensures Places(idx, n + 1) && Places(idx + [n], n + 1) && n !in idx
  {
  }

  lemma OneMoreValid<M>(verifier: Verifier<M>, l1Height: nat, ms: Feed<M>, m: FeedMessage<M>, idx: seq<nat>)
    requires Places(idx, |ms|) && ValidAt(verifier, l1Height, ms, idx)
    ensures
      var more := if verifier.v1(m, l1Height) then idx + [|ms|] else idx;
      Places(more, |ms| + 1) && ValidAt(verifier, l1Height, ms + [m], more)
  {
    OneMorePlace(idx, |ms|);
    var more := if verifier.v1(m, l1Height) then idx + [|ms|] else idx;
    forall i: nat | i < |ms + [m]|
      ensures i in more <==> verifier.v1((ms + [m])[i], l1Height)
    {
      if i < |ms| {
        assert (ms + [m])[i] == ms[i];
      }
    }
  }

  /** The messages at the places idx. */
  function At<M>(ms: Feed<M>, idx: seq<nat>): (r: Feed<M>)
    requires forall k | 0 <= k < |idx| :: idx[k] < |ms|
    ensures |r| == |idx| && forall k | 0 <= k < |r| :: r[k] == ms[idx[k]]
  {
    seq(|idx|, k requires 0 <= k < |idx| => ms[idx[k]])
  }

  lemma OneMoreAt<M>(ms: Feed<M>, idx: seq<nat>, n: nat)
    requires n < |ms| && forall k | 0 <= k < |idx| :: idx[k] < n
    ensures At(ms, idx) == At(ms[..n], idx) && At(ms, idx + [n]) == At(ms[..n], idx) + [ms[n]]
  {
  }

  lemma {:induction false} ValidPlaces<M>(verifier: Verifier<M>, l1Height: nat, ms: Feed<M>) returns (idx: seq<nat>)
    ensures Places(idx, |ms|) && ValidAt(verifier, l1Height, ms, idx)
    ensures ValidMessages(verifier, l1Height, ms) == At(ms, idx)
  {
    if ms == [] {
      idx := [];
    } else {
      var n := |ms| - 1;
      var rest := ValidPlaces(verifier, l1Height, ms[..n]);
      OneMoreValid(verifier, l1Height, ms[..n], ms[n], rest);
      OneMoreAt(ms, rest, n);
      assert ms[..n] + [ms[n]] == ms;
      hide ValidAt, At;
      idx := if verifier.v1(ms[n], l1Height) then rest + [n] else rest;
    }
  }

  /** A transaction that does not parse yields nothing. A version 0 payload yields all its messages, position and
      content, in order, when its one signature is accepted, and nothing when it is not. A version 1 payload
      yields, in order and each once, the messages at the places idx, which are those whose own signature is
      accepted, with their sequence number as position. */
  lemma ExtractedExactly<M>(codecs: Codecs<M>, verifier: Verifier<M>, tx: Bytes, l1Height: nat)
    returns (idx: seq<nat>)
    ensures
      var r := Extract(codecs, verifier, tx, l1Height);
      match ParsePayload(codecs, tx)
      case Err(_, _) => r == []
      case Ok(V0Payload(v), _) =>
        if verifier.v0(v.hash, v.signature, l1Height)
        then |r| == |v.messages|
             && forall i | 0 <= i < |r| :: r[i].pos == v.messages[i].pos && r[i].content == v.messages[i].message
        else r == []
      case Ok(V1Payload(ms), _) =>
        && Places(idx, |ms|) && ValidAt(verifier, l1Height, ms, idx) && |r| == |idx|
        && forall k | 0 <= k < |r| :: r[k].pos == ms[idx[k]].sequenceNumber && r[k].content == ms[idx[k]].message
  {
    idx := [];
    match ParsePayload(codecs, tx)
    case Ok(V1Payload(ms), _) => idx := ValidPlaces(verifier, l1Height, ms);
    case _ =>
  }

  /** A message is extracted if and only if the transaction parses and either it is version 0 with an accepted
      signature and holds that position and content, or it is version 1 and holds a feed message with that
      sequence number and content whose own signature is accepted. */
  lemma ExtractedIff<M>(codecs: Codecs<M>, verifier: Verifier<M>, tx: Bytes, l1Height: nat, m: Msg<M>)
    ensures m in Extract(codecs, verifier, tx, l1Height) <==>
      match ParsePayload(codecs, tx)
      case Err(_, _) => false
      case Ok(V0Payload(v), _) =>
        && verifier.v0(v.hash, v.signature, l1Height)
        && exists x :: x in v.messages && x.pos == m.pos && x.message == m.content
      case Ok(V1Payload(ms), _) =>
        exists x :: x in ms && verifier.v1(x, l1Height) && x.sequenceNumber == m.pos && x.message == m.content
  {
    var idx := ExtractedExactly(codecs, verifier, tx, l1Height);
    hide Extract, ParsePayload;
    var r := Extract(codecs, verifier, tx, l1Height);
    match ParsePayload(codecs, tx)
    case Err(_, _) =>
    case Ok(V0Payload(v), _) =>
      if x :| verifier.v0(v.hash, v.signature, l1Height) && x in v.messages && x.pos == m.pos
              && x.message == m.content
      {
        var i :| 0 <= i < |v.messages| && v.messages[i] == x;
        assert r[i] == m;
      }
      if m in r {
        var i :| 0 <= i < |r| && r[i] == m;
        assert v.messages[i] in v.messages;
      }
    case Ok(V1Payload(ms), _) =>
      if x :| x in ms && verifier.v1(x, l1Height) && x.sequenceNumber == m.pos && x.message == m.content {
        var i: nat :| i < |ms| && ms[i] == x;
        var k :| 0 <= k < |idx| && idx[k] == i;
        assert r[k] == m;
      }
      if m in r {
        var k :| 0 <= k < |r| && r[k] == m;
        assert idx[k] in idx && ms[idx[k]] in ms;
      }
  }
}
