/** The commit (`vrf`) and verify (`verify`) halves of the game's VRF protocol. */
module HonestVrf {
  import opened Bytes
  import opened Wrappers
  import opened Schnorrkel
  import opened SecretNumber
  import opened SignatureLayout

  const TRANSCRIPT_LABEL: string := "Secret Number Transcript"
  const SEED_LABEL: string := "seed"
  const SECRET_LABEL: string := "secret"

  /** The transcript both halves sign or verify over: created with the protocol
      label, then the seed appended under the message label "seed". */
  function BuildTranscript(seed: seq<u8>): (t: Transcript)
  {
    AppendMessage(NewTranscript(TRANSCRIPT_LABEL), SEED_LABEL, seed)
  }

  /** The transcript value both halves hand to the library carries the
      protocol label and exactly one message, the seed under "seed"; so two
      seeds give the same transcript value only if they are equal. This is a
      fact about the value passed to `vrf_sign`/`vrf_verify`, not about
      merlin's hashing of it. */
  lemma BuildTranscriptBindsSeed(seed1: seq<u8>, seed2: seq<u8>)
    ensures BuildTranscript(seed1).protocol == TRANSCRIPT_LABEL
    ensures BuildTranscript(seed1).messages == [Message(SEED_LABEL, seed1)]
    ensures BuildTranscript(seed1) == BuildTranscript(seed2) <==> seed1 == seed2
  {
    if BuildTranscript(seed1) == BuildTranscript(seed2) {
      assert BuildTranscript(seed1).messages[0] == Message(SEED_LABEL, seed1);
      assert BuildTranscript(seed2).messages[0] == Message(SEED_LABEL, seed2);
    }
  }

  /** What `vrf` returns, as a value: the secret derived from the signed
      output, and the pre-output's encoding followed by the proof's. */
  function Commit(lib: Vrf, keypair: Keypair, seed: seq<u8>, rng: Randomness): (r: (u8, Bytes96))
    ensures r.0 < MAX_SECRET_NUMBER
    ensures r.0 == DeriveSecret(lib.makeBytes(lib.sign(keypair, BuildTranscript(seed), rng).0, SECRET_LABEL))
    ensures Split(r.1)
            == (lib.preOutToBytes(lib.toPreOut(lib.sign(keypair, BuildTranscript(seed), rng).0)),
                lib.proofToBytes(lib.sign(keypair, BuildTranscript(seed), rng).1))
  {
    var (io, proof) := lib.sign(keypair, BuildTranscript(seed), rng);
    SplitJoin(lib.preOutToBytes(lib.toPreOut(io)), lib.proofToBytes(proof));
    (DeriveSecret(lib.makeBytes(io, SECRET_LABEL)),
     lib.preOutToBytes(lib.toPreOut(io)) + lib.proofToBytes(proof))
  }

  /** `vrf(keypair, vrf_seed)`. The seed may have any length here. */
  method CommitSecret(lib: Vrf, keypair: Keypair, seed: seq<u8>, rng: Randomness)
    returns (secretNumber: u8, signature: Bytes96)
    ensures (secretNumber, signature) == Commit(lib, keypair, seed, rng)
  {
    var t := BuildTranscript(seed);
    var (io, proof) := lib.sign(keypair, t, rng);
    var b := lib.makeBytes(io, SECRET_LABEL);
    secretNumber := DeriveSecret(b);
    signature := Pack(lib.preOutToBytes(lib.toPreOut(io)), lib.proofToBytes(proof));
    JoinSplit(signature);
    SplitJoin(lib.preOutToBytes(lib.toPreOut(io)), lib.proofToBytes(proof));
  }

  /** `verify(public, vrf_signature, vrf_seed)`: decode the pre-output, decode
      the proof, verify them over the rebuilt transcript, and derive the secret
      from the verified output; each of the three steps may fail. */
  function Verify(lib: Vrf, public: PublicKey, signature: Bytes96, seed: Bytes32): (r: Option<u8>)
    ensures lib.preOutFromBytes(Split(signature).0).None? ==> r.None?
    ensures lib.proofFromBytes(Split(signature).1).None? ==> r.None?
    ensures (lib.preOutFromBytes(Split(signature).0).Some? && lib.proofFromBytes(Split(signature).1).Some?
             && lib.verify(public, BuildTranscript(seed), lib.preOutFromBytes(Split(signature).0).value,
                           lib.proofFromBytes(Split(signature).1).value).None?) ==> r.None?
    ensures r.Some? ==> r.value < MAX_SECRET_NUMBER
    ensures r.Some? ==> exists out, proof, io ::
              && lib.preOutFromBytes(Split(signature).0) == Some(out)
              && lib.proofFromBytes(Split(signature).1) == Some(proof)
              && lib.verify(public, BuildTranscript(seed), out, proof) == Some(io)
              && r == Some(DeriveSecret(lib.makeBytes(io, SECRET_LABEL)))
    ensures (lib.preOutFromBytes(Split(signature).0).Some? && lib.proofFromBytes(Split(signature).1).Some?
             && lib.verify(public, BuildTranscript(seed), lib.preOutFromBytes(Split(signature).0).value,
                           lib.proofFromBytes(Split(signature).1).value).Some?)
            ==> r == Some(DeriveSecret(lib.makeBytes(
                          lib.verify(public, BuildTranscript(seed), lib.preOutFromBytes(Split(signature).0).value,
                                     lib.proofFromBytes(Split(signature).1).value).value, SECRET_LABEL)))
  {
    var t := BuildTranscript(seed);
    var out :- lib.preOutFromBytes(signature[..PREOUT_LENGTH]);
    var proof :- lib.proofFromBytes(signature[PREOUT_LENGTH..SIGNATURE_LENGTH]);
    var io :- lib.verify(public, t, out, proof);
    Some(DeriveSecret(lib.makeBytes(io, SECRET_LABEL)))
  }

  /** The honest-CPU property: under the sign/verify assumption about the library,
      verifying a commit's signature with the signer's public key and the same
      seed recovers exactly the committed secret. */
  lemma VerifyCommitRoundTrip(lib: Vrf, keypair: Keypair, seed: Bytes32, rng: Randomness)
    requires SignAndVerifyAgree(lib, keypair)
    ensures Verify(lib, keypair.public, Commit(lib, keypair, seed, rng).1, seed)
            == Some(Commit(lib, keypair, seed, rng).0)
  {
  }

  /** Two commits to the same seed with the same key reveal the same secret,
      whatever randomness the proofs drew, and the signatures agree on the
      pre-output half. */
  lemma CommitSecretIsDeterministic(lib: Vrf, keypair: Keypair, seed: seq<u8>, rng1: Randomness, rng2: Randomness)
    requires OutputIsDeterministic(lib, keypair)
    ensures Commit(lib, keypair, seed, rng1).0 == Commit(lib, keypair, seed, rng2).0
    ensures Split(Commit(lib, keypair, seed, rng1).1).0 == Split(Commit(lib, keypair, seed, rng2).1).0
  {
  }
}
