/**
 * The card draw itself: deriving a card from a VRF in/out value (`find_card`), one
 * signed draw (`try_draw`), all draws under a seed (`draws`), the commitment
 * (`commit_my_card`), the counterparty's check (`recieve`, `check_other_players_card`)
 * and the input of the shared seed (`create_initial_hash`).
 */
module CardDraw {
  import opened Bytes
  import opened Wrappers
  import opened Transcripts
  import opened Vrf
  import opened SignedDraws

  /** `NUM_CARDS`. */
  const NUM_CARDS: U16 := 52
  const CARD_LABEL := "card"

  /** A drawn card and the signed draw that commits to it. */
  type Drawn = (U16, SignedDraw)

  // ---------------------------------------------------------------- card derivation

  /** The card eight pseudo-random bytes stand for: their little-endian value modulo 52. */
  function CardFromBytes(b: Bytes8): (card: U16)
    ensures card < NUM_CARDS
    ensures card as int == LeValue(b) % NUM_CARDS as int
  {
    (U64FromLeBytes(b) % (NUM_CARDS as U64)) as U16
  }

  /** Every card can come out: the encoding of `c` itself derives `c`. */
  lemma EveryCardDerivable(c: U16)
    requires c < NUM_CARDS
    ensures CardFromBytes(U64ToLeBytes(c as U64)) == c
  {
    U64FromToLeBytes(c as U64);
  }

  /**
   * `find_card`: never fails, and the card depends on the in/out value alone, through
   * eight bytes made from it under the label "card".
   */
  function FindCard(makeBytes: (InOut, string) -> Bytes8, io: InOut): (r: Option<U16>)
    ensures r.Some? && r.value < NUM_CARDS
  {
    Some(CardFromBytes(makeBytes(io, CARD_LABEL)))
  }

  // ---------------------------------------------------------------- one draw

  /**
   * The result of `try_draw` for index `drawNum`, with `nonce` the randomness the
   * signing call draws: None for an index above `NUM_DRAWS`, otherwise the card and
   * the signed draw holding the pre-output, the proof and the index.
   */
  function Draw(v: Vrf, kp: Keypair, seed: Seed, drawNum: Byte, nonce: Nonce): (r: Option<Drawn>)
    ensures r.Some? <==> drawNum <= NUM_DRAWS
  {
    var t :- TranscriptFor(seed, drawNum);
    var io, proof := v.evaluate(kp, t), v.prove(kp, t, nonce);
    match FindCard(v.makeBytes, io)
    case None => None
    case Some(card) => Some((card, Encode(Parts(io.output.bytes, proof.bytes, drawNum))))
  }

  /**
   * What a successful draw holds: the card derived from the in/out value the signing
   * call fixes, and a signed draw laid out as that value's pre-output, the proof and
   * the index.
   */
  lemma DrawLayout(v: Vrf, kp: Keypair, seed: Seed, drawNum: Byte, nonce: Nonce)
    requires drawNum <= NUM_DRAWS
    ensures Draw(v, kp, seed, drawNum, nonce).Some?
    ensures var d := Draw(v, kp, seed, drawNum, nonce).value;
      var t := TranscriptFor(seed, drawNum).value;
      && d.0 < NUM_CARDS
      && d.0 == FindCard(v.makeBytes, v.evaluate(kp, t)).value
      && Decode(d.1) == Parts(v.evaluate(kp, t).output.bytes, v.prove(kp, t, nonce).bytes, drawNum)
  {
    var t := TranscriptFor(seed, drawNum).value;
    DecodeEncode(Parts(v.evaluate(kp, t).output.bytes, v.prove(kp, t, nonce).bytes, drawNum));
  }

  /**
   * `try_draw`: builds the transcript, signs it, derives the card and writes the signed
   * draw into a zero-initialised 97-byte buffer.
   */
  method TryDraw(v: Vrf, kp: Keypair, seed: Seed, drawNum: Byte, nonce: Nonce) returns (r: Option<Drawn>)
    ensures r == Draw(v, kp, seed, drawNum, nonce)
  {
    var t :- DrawTranscript(seed, drawNum);
    var io, proof := v.evaluate(kp, t), v.prove(kp, t, nonce);
    var found := FindCard(v.makeBytes, io);
    if found.None? {
      return None;
    }
    var sig := WriteSignedDraw(io.output.bytes, proof.bytes, drawNum);
    return Some((found.value, sig));
  }

  /**
   * The card, the pre-output and the index byte of a draw are fixed by the key, seed
   * and index: two signing calls that draw different randomness agree on them.
   */
  lemma DrawDeterminedUpToProof(v: Vrf, kp: Keypair, seed: Seed, drawNum: Byte, nonce1: Nonce, nonce2: Nonce)
    requires drawNum <= NUM_DRAWS
    ensures var d1, d2 := Draw(v, kp, seed, drawNum, nonce1).value, Draw(v, kp, seed, drawNum, nonce2).value;
      && d1.0 == d2.0
      && Decode(d1.1).preOut == Decode(d2.1).preOut
      && Decode(d1.1).drawNum == Decode(d2.1).drawNum == drawNum
  {
  }

  // ---------------------------------------------------------------- all draws

  /**
   * `(lo..hi).filter_map(f).collect()`: the values `f` yields for `lo`, `lo + 1`, ...,
   * `hi - 1`, skipping the indices where it yields None, in index order.
   */
  function FilterMap<T>(f: Byte -> Option<T>, lo: Byte, hi: Byte): (r: seq<T>)
    requires lo <= hi
    ensures |r| <= (hi - lo) as nat
    decreases hi - lo
  {
    if lo == hi then []
    else
      var rest := FilterMap(f, lo + 1, hi);
      match f(lo)
      case None => rest
      case Some(x) => [x] + rest
  }

  /** When `f` succeeds on the whole range, nothing is skipped: entry `k` is `f(lo + k)`. */
  lemma {:induction false} FilterMapAllSome<T>(f: Byte -> Option<T>, lo: Byte, hi: Byte)
    requires lo <= hi
    requires forall i: Byte :: lo <= i < hi ==> f(i).Some?
    ensures |FilterMap(f, lo, hi)| == (hi - lo) as nat
    ensures forall k :: 0 <= k < (hi - lo) as nat ==> f(lo + k as Byte) == Some(FilterMap(f, lo, hi)[k])
    decreases hi - lo
  {
    if lo < hi {
      FilterMapAllSome(f, lo + 1, hi);
      var rest := FilterMap(f, lo + 1, hi);
      assert FilterMap(f, lo, hi) == [f(lo).value] + rest;
      forall k | 0 < k < (hi - lo) as nat
        ensures f(lo + k as Byte) == Some(FilterMap(f, lo, hi)[k])
      {
        assert lo + k as Byte == (lo + 1) + (k - 1) as Byte;
      }
    }
  }

  /** The attempt `draws` makes at index `i`: `try_draw` with the randomness `coins(i)`. */
  function DrawAttempt(v: Vrf, kp: Keypair, seed: Seed, coins: nat -> Nonce): Byte -> Option<Drawn>
  {
    (i: Byte) => Draw(v, kp, seed, i, coins(i as nat))
  }

  /** An attempt at index `i` is the draw for `i`; it succeeds and carries `i` when `i <= NUM_DRAWS`. */
  lemma DrawAttemptAt(v: Vrf, kp: Keypair, seed: Seed, coins: nat -> Nonce, i: Byte)
    requires i <= NUM_DRAWS
    ensures DrawAttempt(v, kp, seed, coins)(i) == Draw(v, kp, seed, i, coins(i as nat))
    ensures DrawAttempt(v, kp, seed, coins)(i).Some?
    ensures DrawAttempt(v, kp, seed, coins)(i).value.1[INDEX_AT] == i
  {
    DrawLayout(v, kp, seed, i, coins(i as nat));
  }

  /** Every attempt over indices 0 to `NUM_DRAWS - 1` succeeds and carries its own index. */
  lemma DrawAttemptsAllSome(v: Vrf, kp: Keypair, seed: Seed, coins: nat -> Nonce)
    ensures forall i: Byte :: 0 <= i < NUM_DRAWS ==>
      DrawAttempt(v, kp, seed, coins)(i).Some? && DrawAttempt(v, kp, seed, coins)(i).value.1[INDEX_AT] == i
  {
    forall i: Byte | 0 <= i < NUM_DRAWS
      ensures DrawAttempt(v, kp, seed, coins)(i).Some? && DrawAttempt(v, kp, seed, coins)(i).value.1[INDEX_AT] == i
    {
      DrawAttemptAt(v, kp, seed, coins, i);
    }
  }

  /** So none is filtered out: entry `k` is the attempt at index `k` and carries `k`. */
  lemma DrawAttemptsSucceed(v: Vrf, kp: Keypair, seed: Seed, coins: nat -> Nonce)
    ensures |FilterMap(DrawAttempt(v, kp, seed, coins), 0, NUM_DRAWS)| == NUM_DRAWS as nat
    ensures forall k :: 0 <= k < NUM_DRAWS as nat ==>
      DrawAttempt(v, kp, seed, coins)(k as Byte) == Some(FilterMap(DrawAttempt(v, kp, seed, coins), 0, NUM_DRAWS)[k])
    ensures forall k :: 0 <= k < NUM_DRAWS as nat ==>
      FilterMap(DrawAttempt(v, kp, seed, coins), 0, NUM_DRAWS)[k].1[INDEX_AT] as nat == k
  {
    var attempt := DrawAttempt(v, kp, seed, coins);
    DrawAttemptsAllSome(v, kp, seed, coins);
    FilterMapAllSome(attempt, 0, NUM_DRAWS);
    var r := FilterMap(attempt, 0, NUM_DRAWS);
    forall k | 0 <= k < NUM_DRAWS as nat
      ensures attempt(k as Byte) == Some(r[k]) && r[k].1[INDEX_AT] as nat == k
    {
      assert attempt(0 + k as Byte) == Some(r[k]);
    }
  }

  /**
   * `draws`: the successful draws over indices 0 to `NUM_DRAWS - 1`, the signing call
   * for index `i` drawing randomness `coins(i)`. Every index in that range succeeds,
   * so there are exactly `NUM_DRAWS` entries, and entry `k` carries `k` in its index
   * byte (`DrawsAt`: it is the draw for index `k`).
   */
  function Draws(v: Vrf, kp: Keypair, seed: Seed, coins: nat -> Nonce): (r: seq<Drawn>)
    ensures |r| == NUM_DRAWS as nat
    ensures forall k :: 0 <= k < |r| ==> r[k].1[INDEX_AT] as nat == k
  {
    DrawAttemptsSucceed(v, kp, seed, coins);
    FilterMap(DrawAttempt(v, kp, seed, coins), 0, NUM_DRAWS)
  }

  /** Entry `k` of `draws` is the draw for index `k`. */
  lemma DrawsAt(v: Vrf, kp: Keypair, seed: Seed, coins: nat -> Nonce, k: nat)
    requires k < NUM_DRAWS as nat
    ensures Draw(v, kp, seed, k as Byte, coins(k)) == Some(Draws(v, kp, seed, coins)[k])
  {
    DrawAttemptsSucceed(v, kp, seed, coins);
    DrawAttemptAt(v, kp, seed, coins, k as Byte);
  }

  /**
   * The draws come in increasing index order, and none carries index `NUM_DRAWS`,
   * although `recieve` accepts that index.
   */
  lemma DrawsInIndexOrder(v: Vrf, kp: Keypair, seed: Seed, coins: nat -> Nonce)
    ensures forall j, k :: 0 <= j < k < NUM_DRAWS as nat ==>
      Draws(v, kp, seed, coins)[j].1[INDEX_AT] < Draws(v, kp, seed, coins)[k].1[INDEX_AT]
    ensures forall k :: 0 <= k < NUM_DRAWS as nat ==> Draws(v, kp, seed, coins)[k].1[INDEX_AT] != NUM_DRAWS
  {
  }

  /** `commit_my_card`: the first of the draws, which is the draw for index 0. */
  function CommitMyCard(v: Vrf, kp: Keypair, seed: Seed, coins: nat -> Nonce): (r: Drawn)
    ensures Draw(v, kp, seed, 0, coins(0)) == Some(r)
    ensures r.0 < NUM_CARDS && r.1[INDEX_AT] == 0
  {
    DrawsAt(v, kp, seed, coins, 0);
    Draws(v, kp, seed, coins)[0]
  }

  // ---------------------------------------------------------------- verification

  /**
   * `recieve`: checks the index byte, decodes the pre-output and the proof, verifies
   * them against the transcript rebuilt from the seed and index, and derives the card
   * from the verified in/out value. Any failure gives None.
   */
  function Receive(v: Vrf, public: PublicKey, sig: SignedDraw, seed: Seed): (r: Option<U16>)
    ensures sig[INDEX_AT] > NUM_DRAWS ==> r.None?
    ensures r.Some? ==> r.value < NUM_CARDS
  {
    var parts := Decode(sig);
    var t :- TranscriptFor(seed, parts.drawNum);
    var out :- v.preOutFromBytes(parts.preOut);
    var proof :- v.proofFromBytes(parts.proof);
    var io :- v.verify(public, t, out, proof);
    FindCard(v.makeBytes, io)
  }

  /** `check_other_players_card`: hands the signed draw and seed to `recieve`. */
  function CheckOtherPlayersCard(v: Vrf, public: PublicKey, sig: SignedDraw, hash: Seed): (r: Option<U16>)
  {
    Receive(v, public, sig, hash)
  }

  /**
   * The checks `recieve` makes, in both directions: it returns a card exactly when the
   * index is at most `NUM_DRAWS`, both fields decode and the proof verifies; that card
   * is the one derived from the verified in/out value, whatever the committing party
   * may claim. Which check failed is not told apart.
   */
  lemma ReceiveAcceptsExactly(v: Vrf, public: PublicKey, sig: SignedDraw, seed: Seed)
    ensures Receive(v, public, sig, seed).Some? <==>
      && sig[INDEX_AT] <= NUM_DRAWS
      && v.preOutFromBytes(sig[..PROOF_START]).Some?
      && v.proofFromBytes(sig[PROOF_START..INDEX_AT]).Some?
      && v.verify(public, TranscriptFor(seed, sig[INDEX_AT]).value,
                  v.preOutFromBytes(sig[..PROOF_START]).value,
                  v.proofFromBytes(sig[PROOF_START..INDEX_AT]).value).Some?
    ensures Receive(v, public, sig, seed).Some? ==>
      Receive(v, public, sig, seed) ==
        FindCard(v.makeBytes,
                 v.verify(public, TranscriptFor(seed, sig[INDEX_AT]).value,
                          v.preOutFromBytes(sig[..PROOF_START]).value,
                          v.proofFromBytes(sig[PROOF_START..INDEX_AT]).value).value)
  {
  }

  /**
   * With a complete VRF, every draw the engine can make verifies under the drawing
   * key and the same seed, and the verifier recovers the drawn card.
   */
  lemma ReceiveDraw(v: Vrf, kp: Keypair, seed: Seed, drawNum: Byte, nonce: Nonce)
    requires Complete(v)
    requires drawNum <= NUM_DRAWS
    ensures Draw(v, kp, seed, drawNum, nonce).Some?
    ensures var d := Draw(v, kp, seed, drawNum, nonce).value;
      Receive(v, kp.public, d.1, seed) == Some(d.0)
  {
    var d := Draw(v, kp, seed, drawNum, nonce).value;
    var t := TranscriptFor(seed, drawNum).value;
    var io, proof := v.evaluate(kp, t), v.prove(kp, t, nonce);
    assert Decode(d.1) == Parts(io.output.bytes, proof.bytes, drawNum);
    assert v.preOutFromBytes(io.output.bytes) == Some(io.output);
    assert v.proofFromBytes(proof.bytes) == Some(proof);
    assert v.verify(kp.public, t, io.output, proof) == Some(io);
  }

  /**
   * The round trip `main` relies on when it unwraps the check: with a complete VRF, the
   * counterparty's check of a committed draw returns the committed card.
   */
  lemma CommitThenReceive(v: Vrf, kp: Keypair, seed: Seed, coins: nat -> Nonce)
    requires Complete(v)
    ensures var c := CommitMyCard(v, kp, seed, coins);
      CheckOtherPlayersCard(v, kp.public, c.1, seed) == Some(c.0)
  {
    ReceiveDraw(v, kp, seed, 0, coins(0));
  }

  // ---------------------------------------------------------------- shared seed

  /** What `create_initial_hash` hashes: the first key's 32 bytes, then the second's. */
  function SeedInput(publicKey1: PublicKey, publicKey2: PublicKey): (r: seq<Byte>)
    ensures |r| == 64 && r[..32] == publicKey1 && r[32..] == publicKey2
  {
    publicKey1 + publicKey2
  }

  /** `create_initial_hash`, for the 256-bit hash `twox` (`twox_256`). */
  function CreateInitialHash(twox: seq<Byte> -> Bytes32, publicKey1: PublicKey, publicKey2: PublicKey): (r: Seed)
  {
    twox(SeedInput(publicKey1, publicKey2))
  }

  /** The hash input determines both keys and their order. */
  lemma SeedInputInjective(a1: PublicKey, b1: PublicKey, a2: PublicKey, b2: PublicKey)
    requires SeedInput(a1, b1) == SeedInput(a2, b2)
    ensures a1 == a2 && b1 == b2
  {
    assert a1 == SeedInput(a1, b1)[..32] && b1 == SeedInput(a1, b1)[32..];
  }

  /** Swapping two different keys changes the hash input: the seed depends on argument order. */
  lemma SeedInputOrderMatters(a: PublicKey, b: PublicKey)
    requires a != b
    ensures SeedInput(a, b) != SeedInput(b, a)
  {
    if SeedInput(a, b) == SeedInput(b, a) {
      SeedInputInjective(a, b, b, a);
    }
  }

  /**
   * The game `main` plays: both players commit under the seed hashed from their two
   * public keys, and with a complete VRF each check of the other's signed draw
   * confirms the committed card, so the unwraps succeed and the confirmed outcome
   * is the announced one.
   */
  lemma ConfirmedCardsMatchCommitted(v: Vrf, twox: seq<Byte> -> Bytes32,
                                     player1: Keypair, player2: Keypair,
                                     coins1: nat -> Nonce, coins2: nat -> Nonce)
    requires Complete(v)
    ensures var hash := CreateInitialHash(twox, player1.public, player2.public);
      var (card1, sig1) := CommitMyCard(v, player1, hash, coins1);
      var (card2, sig2) := CommitMyCard(v, player2, hash, coins2);
      && CheckOtherPlayersCard(v, player1.public, sig1, hash) == Some(card1)
      && CheckOtherPlayersCard(v, player2.public, sig2, hash) == Some(card2)
  {
    var hash := CreateInitialHash(twox, player1.public, player2.public);
    CommitThenReceive(v, player1, hash, coins1);
    CommitThenReceive(v, player2, hash, coins2);
  }
}
