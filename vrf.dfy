/**
 * The schnorrkel VRF as the card draw sees it. Signing, verification, the point and
 * proof decoders and `make_bytes` belong to the library and are not modelled: a `Vrf`
 * value carries them as arbitrary functions, and every result of the card draw is
 * stated for whichever functions it carries. The one thing assumed of them is
 * `Complete`: an honestly produced pre-output and proof decode and verify.
 */
module Vrf {
  import opened Bytes
  import opened Wrappers
  import opened Transcripts

  type PublicKey = Bytes32

  /** A keypair; how its public half relates to its secret half is the library's business. */
  datatype Keypair = Keypair(secret: seq<Byte>, public: PublicKey)

  /** `VRFPreOut`: the VRF output point, in its 32-byte compressed encoding. */
  datatype PreOut = PreOut(bytes: Bytes32)

  /** `VRFProof`: the 64-byte proof that a pre-output was correctly derived. */
  datatype Proof = Proof(bytes: Bytes64)

  /** `VRFInOut`: the transcript's input point together with the output point. */
  datatype InOut = InOut(input: Bytes32, output: PreOut)

  /** Randomness a signing call may draw when it builds its proof. */
  type Nonce = nat

  /**
   * The library's primitives. `keypair.vrf_sign(t)` is split into `evaluate`, which
   * fixes the in/out value from the key and transcript alone, and `prove`, whose proof
   * may also depend on the randomness drawn by that call.
   */
  datatype Vrf = Vrf(
    evaluate: (Keypair, Transcript) -> InOut,
    prove: (Keypair, Transcript, Nonce) -> Proof,
    verify: (PublicKey, Transcript, PreOut, Proof) -> Option<InOut>,
    preOutFromBytes: Bytes32 -> Option<PreOut>,
    proofFromBytes: Bytes64 -> Option<Proof>,
    makeBytes: (InOut, string) -> Bytes8)

  /**
   * Completeness of the VRF: what `vrf_sign` produces for a keypair and transcript
   * decodes from its own encoding, and `vrf_verify` under that keypair's public key
   * and the same transcript accepts it and gives back the same in/out value.
   */
  ghost predicate Complete(v: Vrf)
  {
    && (forall kp: Keypair, t: Transcript ::
          v.preOutFromBytes(v.evaluate(kp, t).output.bytes) == Some(v.evaluate(kp, t).output))
    && (forall kp: Keypair, t: Transcript, nonce: Nonce ::
          && v.proofFromBytes(v.prove(kp, t, nonce).bytes) == Some(v.prove(kp, t, nonce))
          && v.verify(kp.public, t, v.evaluate(kp, t).output, v.prove(kp, t, nonce)) == Some(v.evaluate(kp, t)))
  }
}
