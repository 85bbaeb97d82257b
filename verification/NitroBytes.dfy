/** Byte strings and the big-endian integers in them. */
module NitroBytes {
  import opened Batches

  type byte = n: nat | n < 256

  type Bytes = seq<byte>

  /** The length of a Go slice is a non-negative int. */
  const MAX_SLICE: nat := 0x7FFF_FFFF_FFFF_FFFF

  const LEN_SIZE: nat := 8
  const INDEX_SIZE: nat := 8

  function Pow256(k: nat): (p: nat)
    ensures p > 0
  {
    if k == 0 then 1 else 256 * Pow256(k - 1)
  }

  /** The k low bytes of n, most significant first. */
  function BigEndian(n: nat, k: nat): (s: Bytes)
    ensures |s| == k
  {
    if k == 0 then [] else BigEndian(n / 256, k - 1) + [n % 256]
  }

  function Number(s: Bytes): nat {
    if s == [] then 0 else 256 * Number(s[..|s| - 1]) + s[|s| - 1]
  }

  lemma {:induction false} NumberOfBigEndian(n: nat, k: nat)
    requires n < Pow256(k)
    ensures Number(BigEndian(n, k)) == n
  {
    if k > 0 {
      NumberOfBigEndian(n / 256, k - 1);
      var s := BigEndian(n / 256, k - 1);
      assert (s + [n % 256])[..k - 1] == s;
    }
  }

  lemma {:induction false} BigEndianOfNumber(s: Bytes)
    ensures Number(s) < Pow256(|s|) && BigEndian(Number(s), |s|) == s
  {
    if s != [] {
      BigEndianOfNumber(s[..|s| - 1]);
      assert s == s[..|s| - 1] + [s[|s| - 1]];
    }
  }

  lemma Pow256Of8()
    ensures Pow256(8) == MAX_UINT64 + 1
  {
  }

  /** PutUint64. */
  function U64(n: nat): (s: Bytes)
    ensures |s| == 8
  {
    BigEndian(n, 8)
  }

  /** Uint64 at the front of s. */
  function ReadU64(s: Bytes): (n: Uint64)
    requires |s| >= 8
  {
    BigEndianOfNumber(s[..8]);
    Pow256Of8();
    Number(s[..8])
  }

  lemma ReadOfU64(n: Uint64, rest: Bytes)
    ensures ReadU64(U64(n) + rest) == n
  {
    Pow256Of8();
    NumberOfBigEndian(n, 8);
    assert (U64(n) + rest)[..8] == U64(n);
  }

  lemma U64OfRead(s: Bytes)
    requires |s| >= 8
    ensures U64(ReadU64(s)) + s[8..] == s
  {
    BigEndianOfNumber(s[..8]);
    assert s[..8] + s[8..] == s;
  }

  /** Subtraction on uint64. */
  function SubUint64(a: Uint64, b: Uint64): Uint64 {
    if b <= a then a - b else a + MAX_UINT64 + 1 - b
  }

  /** The predicate named CanSafelyReadElements: true when the elements do NOT fit. */
  predicate CanSafelyReadElements(totalSpaceAvailable: Uint64, readPosition: Uint64, elementsToRead: Uint64) {
    elementsToRead > SubUint64(totalSpaceAvailable, readPosition)
  }

  /** Within the data the wrapping test is the exact one, whatever length the header claims; past the end of the
      data it would be off by 2^64. */
  lemma ReadTestIsExact(total: Uint64, offset: Uint64, wanted: Uint64)
    ensures offset <= total ==> (CanSafelyReadElements(total, offset, wanted) <==> offset + wanted > total)
    ensures offset > total ==>
              (CanSafelyReadElements(total, offset, wanted) <==> offset + wanted > total + MAX_UINT64 + 1)
  {
  }

  // ---------- filling a buffer ----------

  /** copy(buf[offset:], src) with room for all of src. */
  method Copy(buf: array<byte>, offset: nat, src: Bytes)
    requires offset + |src| <= buf.Length
    modifies buf
    ensures buf[..offset + |src|] == old(buf[..offset]) + src
    ensures buf[offset + |src|..] == old(buf[offset + |src|..])
  {
    forall i | 0 <= i < |src| {
      buf[offset + i] := src[i];
    }
  }

}
