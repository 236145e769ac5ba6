/** The 96-byte signature a commit hands to the verifier: bytes [0, 32) are the
    encoded VRF pre-output, bytes [32, 96) the encoded proof. */
module SignatureLayout {
  import opened Bytes

  const PREOUT_LENGTH: nat := 32
  const SIGNATURE_LENGTH: nat := 96

  /** `dst[lo..lo + |src|].copy_from_slice(src)`: overwrites exactly that range.
      Rust panics unless the range lies inside `dst` and has the length of `src`;
      passing only `lo` makes the second demand hold by construction. */
  method CopyFromSlice(dst: array<u8>, lo: nat, src: seq<u8>)
    requires lo + |src| <= dst.Length
    modifies dst
    ensures dst[..] == old(dst[..lo]) + src + old(dst[lo + |src|..])
  {
    var i := 0;
    while i < |src|
      invariant 0 <= i <= |src|
      invariant dst[..lo] == old(dst[..lo])
      invariant dst[lo..lo + i] == src[..i]
      invariant dst[lo + i..] == old(dst[lo + i..])
    {
      dst[lo + i] := src[i];
      i := i + 1;
      assert dst[lo..lo + i] == dst[lo..lo + i - 1] + [src[i - 1]];
      assert src[..i] == src[..i - 1] + [src[i - 1]];
    }
    assert dst[..] == dst[..lo] + dst[lo..lo + |src|] + dst[lo + |src|..];
  }

  /** The packing done by `vrf`: a zeroed `[u8; 96]` into which the pre-output
      and then the proof are copied. Every byte of the result comes from one of
      the two inputs; none of the initial zeroes survives. */
  method Pack(preOut: Bytes32, proof: Bytes64) returns (signature: Bytes96)
    ensures signature[..PREOUT_LENGTH] == preOut
    ensures signature[PREOUT_LENGTH..] == proof
  {
    var buffer := new u8[SIGNATURE_LENGTH](_ => 0);
    CopyFromSlice(buffer, 0, preOut);
    CopyFromSlice(buffer, PREOUT_LENGTH, proof);
    signature := buffer[..];
  }

  /** The slicing done by `verify`: `signature[..32]` and `signature[32..96]`. */
  function Split(signature: Bytes96): (Bytes32, Bytes64)
  {
    (signature[..PREOUT_LENGTH], signature[PREOUT_LENGTH..SIGNATURE_LENGTH])
  }

  /** Splitting a packed signature returns the two encodings that were packed. */
  lemma SplitJoin(preOut: Bytes32, proof: Bytes64)
    ensures Split(preOut + proof) == (preOut, proof)
  {
    assert (preOut + proof)[..PREOUT_LENGTH] == preOut;
    assert (preOut + proof)[PREOUT_LENGTH..SIGNATURE_LENGTH] == proof;
  }

  /** Joining the two halves of any signature gives it back: the layout loses
      nothing, so every 96-byte array is the packing of exactly one pair. */
  lemma JoinSplit(signature: Bytes96)
    ensures Split(signature).0 + Split(signature).1 == signature
  {
  }
}
