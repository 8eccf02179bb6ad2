/**
 * The challenge transcript a draw is signed over (`draw_transcript`). A transcript is
 * kept as the record of what was bound into it: the protocol label it was created with
 * and the labelled messages appended to it, in order. How the transcript is hashed is
 * not part of this model.
 */
module Transcripts {
  import opened Bytes
  import opened Wrappers

  /** `NUM_DRAWS`: the largest draw index a transcript may be built for. */
  const NUM_DRAWS: Byte := 8

  const PROTOCOL_LABEL := "Card Draw Transcript"
  const SEED_LABEL := "seed"
  const DRAW_LABEL := "draw"

  /** The shared seed both players draw under. */
  type Seed = Bytes32

  datatype Entry = Entry(name: string, message: seq<Byte>)

  datatype Transcript = Transcript(protocol: string, entries: seq<Entry>) {

    /** `append_message`: binds `message` under `name`. */
    function AppendMessage(name: string, message: seq<Byte>): Transcript
    {
      Transcript(protocol, entries + [Entry(name, message)])
    }

    /** `append_u64`: binds `x` under `name` as its 8-byte little-endian encoding. */
    function AppendU64(name: string, x: U64): Transcript
    {
      AppendMessage(name, U64ToLeBytes(x))
    }
  }

  /** `Transcript::new`: a transcript with nothing bound yet. */
  function NewTranscript(protocol: string): Transcript
  {
    Transcript(protocol, [])
  }

  /** The transcript `draw_transcript` builds, or None for an index above `NUM_DRAWS`. */
  function TranscriptFor(seed: Seed, drawNum: Byte): (r: Option<Transcript>)
    ensures r.None? <==> drawNum > NUM_DRAWS
  {
    if drawNum > NUM_DRAWS then None
    else Some(NewTranscript(PROTOCOL_LABEL).AppendMessage(SEED_LABEL, seed).AppendU64(DRAW_LABEL, drawNum as U64))
  }

  /**
   * `draw_transcript`: rejects an index above `NUM_DRAWS`, otherwise creates the
   * transcript and appends the seed and then the index widened to 64 bits.
   */
  method DrawTranscript(seed: Seed, drawNum: Byte) returns (r: Option<Transcript>)
    ensures r.None? <==> drawNum > NUM_DRAWS
    ensures r == TranscriptFor(seed, drawNum)
  {
    if drawNum > NUM_DRAWS {
      return None;
    }
    var t := NewTranscript(PROTOCOL_LABEL);
    t := t.AppendMessage(SEED_LABEL, seed);
    t := t.AppendU64(DRAW_LABEL, drawNum as U64);
    return Some(t);
  }

  /**
   * A transcript built for an accepted index carries the protocol label, then the seed
   * under "seed", then under "draw" eight bytes from which the index is read back.
   */
  lemma TranscriptBindsSeedAndDraw(seed: Seed, drawNum: Byte)
    requires drawNum <= NUM_DRAWS
    ensures TranscriptFor(seed, drawNum).Some?
    ensures var t := TranscriptFor(seed, drawNum).value;
      && t.protocol == PROTOCOL_LABEL
      && |t.entries| == 2
      && t.entries[0] == Entry(SEED_LABEL, seed)
      && t.entries[1].name == DRAW_LABEL
      && |t.entries[1].message| == 8
      && U64FromLeBytes(t.entries[1].message) as int == drawNum as int
  {
    var t := TranscriptFor(seed, drawNum).value;
    var encoded := U64ToLeBytes(drawNum as U64);
    assert t.entries == [Entry(SEED_LABEL, seed), Entry(DRAW_LABEL, encoded)];
    U64FromToLeBytes(drawNum as U64);
  }

  /**
   * Building transcripts is injective: two accepted (seed, index) pairs give the same
   * transcript only when they are the same pair, so a verifier that rebuilds the
   * transcript from a different seed or index checks the proof against a different challenge.
   */
  lemma TranscriptForInjective(seed1: Seed, drawNum1: Byte, seed2: Seed, drawNum2: Byte)
    requires TranscriptFor(seed1, drawNum1).Some?
    requires TranscriptFor(seed1, drawNum1) == TranscriptFor(seed2, drawNum2)
    ensures seed1 == seed2 && drawNum1 == drawNum2
  {
    TranscriptBindsSeedAndDraw(seed1, drawNum1);
    TranscriptBindsSeedAndDraw(seed2, drawNum2);
  }
}
