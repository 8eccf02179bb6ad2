/**
 * The 97-byte signed draw a player sends as its commitment: bytes [0, 32) are the VRF
 * pre-output, bytes [32, 96) the proof and byte 96 the draw index.
 */
module SignedDraws {
  import opened Bytes

  const SIGNATURE_LEN := 97
  const PROOF_START := 32
  const INDEX_AT := 96

  type SignedDraw = s: seq<Byte> | |s| == SIGNATURE_LEN witness seq(SIGNATURE_LEN, _ => 0)

  /** The three fields a signed draw carries. */
  datatype Parts = Parts(preOut: Bytes32, proof: Bytes64, drawNum: Byte)

  /** The layout `try_draw` writes. */
  function Encode(p: Parts): SignedDraw
  {
    p.preOut + p.proof + [p.drawNum]
  }

  /** The slices `recieve` reads. */
  function Decode(s: SignedDraw): (p: Parts)
  {
    Parts(s[..PROOF_START], s[PROOF_START..INDEX_AT], s[INDEX_AT])
  }

  /** Which field byte `k` of an encoded draw comes from. */
  lemma EncodeAt(p: Parts, k: nat)
    requires k < SIGNATURE_LEN
    ensures Encode(p)[k] == if k < PROOF_START then p.preOut[k]
                            else if k < INDEX_AT then p.proof[k - PROOF_START]
                            else p.drawNum
  {
  }

  /** The slices `recieve` reads give back exactly the fields `try_draw` wrote. */
  lemma DecodeEncode(p: Parts)
    ensures Decode(Encode(p)) == p
  {
    var s := Encode(p);
    assert s[..PROOF_START] == p.preOut;
    assert s[PROOF_START..INDEX_AT] == p.proof;
  }

  /** Every byte of a signed draw belongs to one field: re-encoding the fields gives it back. */
  lemma EncodeDecode(s: SignedDraw)
    ensures Encode(Decode(s)) == s
  {
    assert s == s[..PROOF_START] + s[PROOF_START..INDEX_AT] + [s[INDEX_AT]];
  }

  /** Two signed draws with the same fields are the same bytes. */
  lemma DecodeInjective(s1: SignedDraw, s2: SignedDraw)
    requires Decode(s1) == Decode(s2)
    ensures s1 == s2
  {
    EncodeDecode(s1);
    EncodeDecode(s2);
  }

  /**
   * `dst[start..start + |src|].copy_from_slice(src)`: overwrites that window of `dst`
   * with `src` and leaves every other element as it was.
   */
  method CopyFromSlice(dst: array<Byte>, start: nat, src: seq<Byte>)
    requires start + |src| <= dst.Length
    modifies dst
    ensures forall k :: 0 <= k < dst.Length ==>
      dst[k] == if start <= k < start + |src| then src[k - start] else old(dst[k])
  {
    var i := 0;
    while i < |src|
      invariant 0 <= i <= |src|
      invariant forall k :: 0 <= k < dst.Length ==>
        dst[k] == if start <= k < start + i then src[k - start] else old(dst[k])
    {
      dst[start + i] := src[i];
      i := i + 1;
    }
  }

  /**
   * The buffer writes of `try_draw`: a zero-initialised 97-byte array gets the
   * pre-output at [0, 32), the proof at [32, 96) and the index at 96. Nothing else is
   * written, and the result is exactly the layout `Encode` describes.
   */
  method WriteSignedDraw(preOut: Bytes32, proof: Bytes64, drawNum: Byte) returns (s: SignedDraw)
    ensures s == Encode(Parts(preOut, proof, drawNum))
  {
    var sig := new Byte[SIGNATURE_LEN](_ => 0);
    CopyFromSlice(sig, 0, preOut);
    CopyFromSlice(sig, PROOF_START, proof);
    sig[INDEX_AT] := drawNum;
    ghost var layout := Parts(preOut, proof, drawNum);
    forall k | 0 <= k < SIGNATURE_LEN
      ensures sig[k] == Encode(layout)[k]
    {
      EncodeAt(layout, k);
    }
    assert sig[..] == Encode(layout);
    return sig[..];
  }
}
