# vrf_poker card draw, modelled in Dafny

`vrf_poker` is a two-party card draw built on a Verifiable Random Function (VRF).
The two players hash their public keys into a shared seed. Each player signs the
transcripts for draw indices 0 to 7 under that seed with the VRF. Each draw turns the
VRF output into a card in [0, 52). The player commits to the first draw by publishing a
97-byte signed draw: the 32-byte pre-output, the 64-byte proof and the index byte. The
other player checks the signed draw against the committing player's public key and the
seed, and recomputes the card from the verified output.

This project models that protocol logic of `src/main.rs`. The cryptography around it
belongs to the schnorrkel, merlin and sp_core libraries. Here it is a value of type
`Vrf` that carries arbitrary functions:

- `evaluate` and `prove` together stand for `vrf_sign`;
- `verify` stands for `vrf_verify`;
- `preOutFromBytes` and `proofFromBytes` stand for the two decoders;
- `makeBytes` stands for `make_bytes`.

`twox_256` is passed as a function parameter. Every result holds for whatever functions
are supplied. The only assumption is the ghost predicate `Vrf.Complete`: what signing
produces decodes from its own bytes, and verifies under the signer's public key and the
same transcript with the same in/out value. The round-trip lemmas require it.

Modules, leaves first:

- `Wrappers`: `Option`, usable with `:-` the way the source uses `?`.
- `Bytes`: `u8`, `u16` and `u64` as bounded integer newtypes, plus little-endian
  encoding and decoding with both round trips.
- `Transcripts`: the draw transcript as a record of the protocol label and the
  labelled messages appended to it. It has a pure definition (`TranscriptFor`) and the
  step-by-step construction of `draw_transcript` (`DrawTranscript`).
- `Vrf`: keys, pre-outputs, proofs, in/out values, the abstract primitives and
  completeness.
- `SignedDraws`: the 97-byte layout, its decoder and the in-place buffer writes of
  `try_draw` (`CopyFromSlice`, `WriteSignedDraw`).
- `CardDraw`: `find_card`, `try_draw`, `draws`, `commit_my_card`, `recieve`,
  `check_other_players_card` and `create_initial_hash`, with the protocol lemmas.

Signing may draw randomness when it builds the proof. So `vrf_sign` is split in two.
`evaluate(kp, t)` fixes the in/out value from the key and transcript alone.
`prove(kp, t, nonce)` builds the proof from the randomness `nonce` drawn by that call.
`Draws` and `CommitMyCard` take `coins: nat -> Nonce`, the randomness of the signing
call for each index. The model proves that the card, the pre-output and the index byte
are fixed by the key, the seed and the index (`DrawDeterminedUpToProof`). schnorrkel may
use fresh randomness for the proof, so repeated commits need not give identical bytes,
and the model makes no claim that they do.

## Model

| member | source | states |
|---|---|---|
| `Transcripts.TranscriptFor` | src/main.rs:97-104 | the transcript is None exactly when the index is above `NUM_DRAWS` = 8, so index 8 is accepted and 9 rejected |
| `Transcripts.DrawTranscript` | src/main.rs:97-104 | the step-by-step construction (new transcript, append seed, append index as u64) rejects exactly the indices above 8 and yields the transcript `TranscriptFor` defines |
| `Transcripts.TranscriptBindsSeedAndDraw` | src/main.rs:101-103 | an accepted transcript carries the label "Card Draw Transcript", then the seed under "seed", then under "draw" 8 bytes whose little-endian value is the index |
| `Transcripts.TranscriptForInjective` | src/main.rs:97-104 | two accepted (seed, index) pairs give the same transcript only if they are equal, so a verifier using another seed or index checks against a different transcript |
| `Bytes.U64FromToLeBytes` | src/main.rs:103 | the 8 bytes a 64-bit integer is encoded as read back, little-endian, as that integer |
| `Bytes.U64ToFromLeBytes` | src/main.rs:109-112 | every 8-byte string `u64::from_le_bytes` reads is the encoding of the value read |
| `Bytes.U64ToLeBytesInjective` | src/main.rs:103 | distinct indices are bound as distinct byte strings |
| `CardDraw.CardFromBytes` | src/main.rs:112 | the card is the little-endian value of the 8 bytes modulo 52, hence below 52 |
| `CardDraw.EveryCardDerivable` | src/main.rs:112 | every card below 52 can come out: the encoding of `c` derives `c` |
| `CardDraw.FindCard` | src/main.rs:108-113 | `find_card` always returns Some, with a card below 52; it takes only the in/out value, never the proof or the index |
| `CardDraw.Draw` | src/main.rs:116-128 | `try_draw` succeeds exactly when the index is at most 8 |
| `CardDraw.DrawLayout` | src/main.rs:116-128 | a successful draw holds the card `find_card` derives from the signed in/out value, and a signed draw whose fields are that value's pre-output, the proof and the index |
| `CardDraw.TryDraw` | src/main.rs:116-128 | the imperative `try_draw` (transcript, sign, card, buffer writes) returns exactly `Draw` |
| `SignedDraws.CopyFromSlice` | src/main.rs:122-124 | `copy_from_slice` overwrites exactly the target window of the buffer with the source bytes and leaves every other byte unchanged |
| `SignedDraws.WriteSignedDraw` | src/main.rs:120-126 | writing into the zero-initialised 97-byte buffer yields exactly pre-output at [0,32), proof at [32,96) and the index at 96, nothing else |
| `SignedDraws.EncodeAt` | src/main.rs:120-126 | byte `k` of the layout comes from the pre-output, the proof or the index according to its position |
| `SignedDraws.DecodeEncode` | src/main.rs:145-148 | the slices `recieve` reads ([..32], [32..96], [96]) give back exactly the pre-output, proof and index `try_draw` wrote |
| `SignedDraws.EncodeDecode` | src/main.rs:145-148 | re-encoding the three fields read from any signed draw gives the same 97 bytes |
| `SignedDraws.DecodeInjective` | src/main.rs:145-148 | two signed draws with equal fields are equal |
| `CardDraw.FilterMap` | src/main.rs:132-134 | `filter_map` over the range `lo..hi` yields at most `hi - lo` values |
| `CardDraw.FilterMapAllSome` | src/main.rs:132-134 | when every index of the range yields a value, nothing is skipped and entry `k` is the value for index `lo + k` |
| `CardDraw.DrawAttemptAt` | src/main.rs:133 | the attempt at an index up to 8 is `try_draw` for that index, succeeds and carries the index in byte 96 |
| `CardDraw.DrawAttemptsAllSome` | src/main.rs:132-133 | every attempt over indices 0 to 7 succeeds and carries its index |
| `CardDraw.DrawAttemptsSucceed` | src/main.rs:131-135 | the collected draws number exactly 8 and entry `k` is the attempt at index `k`, carrying `k` |
| `CardDraw.Draws` | src/main.rs:131-135 | `draws` yields exactly `NUM_DRAWS` = 8 entries and entry `k` has `sig[96] == k` |
| `CardDraw.DrawsAt` | src/main.rs:131-135 | entry `k` of `draws` is the `try_draw` result for index `k` |
| `CardDraw.DrawsInIndexOrder` | src/main.rs:131-135 | the entries are in strictly increasing index order and none carries index 8, which the verifier would accept |
| `CardDraw.CommitMyCard` | src/main.rs:87-94 | `draw[0]` never panics and is the draw for index 0: its card is below 52 and its index byte is 0 |
| `CardDraw.DrawDeterminedUpToProof` | src/main.rs:116-128 | two signing calls with different randomness give the same card, the same pre-output bytes and the same index byte |
| `CardDraw.Receive` | src/main.rs:145-155 | an index byte above 8 gives None, whatever the decoders and the verifier do; any card returned is below 52 |
| `CardDraw.ReceiveAcceptsExactly` | src/main.rs:145-155 | `recieve` returns a card exactly when the index is at most 8, both fields decode and `vrf_verify` accepts; the card is the one derived from the verified in/out value, and the failures are not told apart |
| `CardDraw.ReceiveDraw` | src/main.rs:116-155 | with a complete VRF, every draw for an index up to 8 verifies under the signer's public key and the same seed, and `recieve` returns its card |
| `CardDraw.CommitThenReceive` | src/main.rs:75-79 | with a complete VRF, `check_other_players_card(pub, commit_my_card(kp, seed).1, seed)` is `Some(commit_my_card(kp, seed).0)` |
| `CardDraw.ConfirmedCardsMatchCommitted` | src/main.rs:35-54 | in the game `main` plays, with a complete VRF both unwraps succeed and each confirmed card equals the committed card |
| `CardDraw.SeedInput` | src/main.rs:68-72 | the hashed input is 64 bytes: key 1's 32 bytes, then key 2's |
| `CardDraw.SeedInputInjective` | src/main.rs:68-71 | the hashed input determines both keys and their order |
| `CardDraw.SeedInputOrderMatters` | src/main.rs:68-72 | swapping two different keys changes the hashed input |

The following members define what the rows above state facts about. None of them
states anything beyond its definition, so each is described here rather than given a row:

- `Transcripts.NewTranscript`, `Transcripts.Transcript.AppendMessage` and
  `Transcripts.Transcript.AppendU64` (src/main.rs:101-103): merlin's `Transcript::new`,
  `append_message` and `append_u64`, which record the label and the bound message; the
  u64 is bound as its 8 little-endian bytes. `TranscriptBindsSeedAndDraw` states what they
  build.
- `Bytes.U64FromLeBytes` (src/main.rs:112) and `Bytes.U64ToLeBytes` (src/main.rs:103):
  `u64::from_le_bytes` and `u64::to_le_bytes`, related by `U64FromToLeBytes` and
  `U64ToFromLeBytes`.
- `SignedDraws.Encode` (src/main.rs:120-126) and `SignedDraws.Decode`
  (src/main.rs:146-148): the 97-byte layout `try_draw` writes and the slices `recieve`
  reads, related by `DecodeEncode` and `EncodeDecode`; `WriteSignedDraw` is proved to
  produce `Encode`.
- `CardDraw.DrawAttempt` (src/main.rs:133): the closure `draws` maps over the indices,
  stated by `DrawAttemptAt`.
- `CardDraw.CreateInitialHash` (src/main.rs:68-72): applies the hash parameter to
  `SeedInput`.
- `CardDraw.CheckOtherPlayersCard` (src/main.rs:75-79): passes its arguments unchanged to
  `Receive`.

## Left out

- schnorrkel `vrf_sign`, `vrf_verify`, `VRFPreOut::from_bytes`, `VRFProof::from_bytes` and `VRFInOut::make_bytes`: foreign cryptography, supplied as arbitrary functions. Only completeness is assumed, and only where a lemma requires it. Soundness is not modelled. So the model does not state tamper detection, rejection under a different seed, or rejection under another player's key.
- The batchable proof that `vrf_sign` and `vrf_verify` also return is discarded by the source and is not modelled.
- merlin's transcript hashing: a transcript is the record of what was bound into it. Labels are strings rather than bytes.
- `twox_256`: a parameter of `CreateInitialHash`. Only its input is modelled.
- How a keypair's public key follows from its secret key: keys are plain byte strings.
- `create_player` and `OsRng` key generation: operating-system randomness.
- `main`'s printing and its win/tie comparison, and the `println!` calls in `recieve`: console output.
- The commented-out `Player` struct and the commented-out high-bit rule in `find_card`: dead code. `FindCard` is total.
- The randomness a signing call draws for its proof: a `Nonce` per call, chosen by the caller of `Draws` and `CommitMyCard`. No claim is made that the full 97-byte signed draw is determined.
- The decoders take a 32-byte and a 64-byte string. The source passes slices of exactly those lengths, so no length error can arise.
