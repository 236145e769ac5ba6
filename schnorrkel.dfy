/** The interface of the two libraries the game relies on, `merlin` (transcripts)
    and `schnorrkel` (the VRF over Ristretto points), as far as the game uses it.

    The cryptography itself is not modelled. Key material, VRF inputs/outputs and
    proofs are opaque types, and every library call the game makes is a field of
    the `Vrf` record: a caller of the game's functions passes in the library, so
    nothing is assumed about those calls except what a requires clause states
    explicitly. */
module Schnorrkel {
  import opened Bytes
  import opened Wrappers

  type SecretKey
  type PublicKey
  /** `schnorrkel::Keypair`: a secret key together with its public half. */
  datatype Keypair = Keypair(secret: SecretKey, public: PublicKey)

  /** `VRFInOut`: the VRF input point with the signer's output point. */
  type InOut(==, !new)
  /** `VRFPreOut`: the output point alone, as sent to a verifier. */
  type PreOut(==, !new)
  /** `VRFProof`: the proof that the output was computed with the secret key. */
  type Proof(==, !new)
  /** The system randomness the signer draws for its proof nonce. */
  type Randomness(!new)

  /** A `merlin::Transcript`, kept as the protocol label it was created with
      and the labelled messages appended to it, in order. Its hashing belongs
      to the library and is not modelled. */
  datatype Message = Message(name: string, data: seq<u8>)
  datatype Transcript = Transcript(protocol: string, messages: seq<Message>)

  /** `Transcript::new(protocol)`. */
  function NewTranscript(protocol: string): Transcript
  {
    Transcript(protocol, [])
  }

  /** `t.append_message(name, data)`: only adds one message at the end. */
  function AppendMessage(t: Transcript, name: string, data: seq<u8>): Transcript
  {
    Transcript(t.protocol, t.messages + [Message(name, data)])
  }

  /** The library calls, left uninterpreted. The byte widths are those of the
      Rust types: `VRFPreOut::to_bytes` gives `[u8; 32]`, `VRFProof::to_bytes`
      gives `[u8; 64]`, and `make_bytes::<[u8; 8]>` gives 8 bytes. */
  datatype Vrf = Vrf(
    /** `Keypair::vrf_sign` (its third, batchable result is dropped). */
    sign: (Keypair, Transcript, Randomness) -> (InOut, Proof),
    /** `PublicKey::vrf_verify`, with its error mapped to `None` by `.ok()`. */
    verify: (PublicKey, Transcript, PreOut, Proof) -> Option<InOut>,
    /** `VRFInOut::to_preout`. */
    toPreOut: InOut -> PreOut,
    preOutToBytes: PreOut -> Bytes32,
    /** `VRFPreOut::from_bytes(..).ok()`. */
    preOutFromBytes: seq<u8> -> Option<PreOut>,
    proofToBytes: Proof -> Bytes64,
    /** `VRFProof::from_bytes(..).ok()`. */
    proofFromBytes: seq<u8> -> Option<Proof>,
    /** `VRFInOut::make_bytes(label)`. */
    makeBytes: (InOut, string) -> Bytes8
  )

  /** What an honest signature over transcript `t` must satisfy for the game's
      round trip: the encodings of its output and proof decode back to them,
      and verifying them under the signer's public key and the same transcript
      accepts and yields the signer's `VRFInOut`. */
  predicate SignatureVerifies(lib: Vrf, kp: Keypair, t: Transcript, io: InOut, proof: Proof)
  {
    && lib.preOutFromBytes(lib.preOutToBytes(lib.toPreOut(io))) == Some(lib.toPreOut(io))
    && lib.proofFromBytes(lib.proofToBytes(proof)) == Some(proof)
    && lib.verify(kp.public, t, lib.toPreOut(io), proof) == Some(io)
  }

  /** The one assumption linking `vrf_sign` and `vrf_verify`, for key pair `kp`:
      every signature it makes verifies in the sense above. */
  ghost predicate SignAndVerifyAgree(lib: Vrf, kp: Keypair)
  {
    forall t, rng :: SignatureVerifies(lib, kp, t, lib.sign(kp, t, rng).0, lib.sign(kp, t, rng).1)
  }

  /** The VRF output is a function of the key and the transcript: only the
      proof may depend on the signer's randomness. */
  ghost predicate OutputIsDeterministic(lib: Vrf, kp: Keypair)
  {
    forall t, rng1, rng2 :: lib.sign(kp, t, rng1).0 == lib.sign(kp, t, rng2).0
  }
}
