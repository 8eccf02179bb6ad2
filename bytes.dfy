/**
 * Machine integers and the little-endian byte encodings the card draw relies on:
 * `u64::from_le_bytes` (card derivation) and `u64::to_le_bytes` (how a transcript
 * binds a 64-bit integer).
 */
module Bytes {

  newtype Byte = b: int | 0 <= b < 0x100
  newtype U16 = x: int | 0 <= x < 0x1_0000
  newtype U64 = x: int | 0 <= x < 0x1_0000_0000_0000_0000

  type Bytes8 = s: seq<Byte> | |s| == 8 witness [0, 0, 0, 0, 0, 0, 0, 0]
  type Bytes32 = s: seq<Byte> | |s| == 32 witness seq(32, _ => 0)
  type Bytes64 = s: seq<Byte> | |s| == 64 witness seq(64, _ => 0)

  /** 256 to the power n: one more than the largest value n bytes can hold. */
  function Pow256(n: nat): (r: nat)
    ensures r > 0
  {
    if n == 0 then 1 else 256 * Pow256(n - 1)
  }

  lemma Pow256Of8()
    ensures Pow256(8) == 0x1_0000_0000_0000_0000
  {
  }

  /** The unsigned value of `s` read little-endian: `s[0]` is the least significant byte. */
  function LeValue(s: seq<Byte>): (r: nat)
    ensures r < Pow256(|s|)
  {
    if s == [] then 0 else s[0] as nat + 256 * LeValue(s[1..])
  }

  /** The `n` low-order bytes of `x`, least significant first. */
  function LeBytes(x: nat, n: nat): (r: seq<Byte>)
    ensures |r| == n
  {
    if n == 0 then [] else [(x % 256) as Byte] + LeBytes(x / 256, n - 1)
  }

  /** Encoding a value that fits in `n` bytes and reading it back gives the value. */
  lemma {:induction false} LeValueOfLeBytes(x: nat, n: nat)
    requires x < Pow256(n)
    ensures LeValue(LeBytes(x, n)) == x
  {
    if n > 0 {
      var r := LeBytes(x, n);
      assert r[1..] == LeBytes(x / 256, n - 1);
      LeValueOfLeBytes(x / 256, n - 1);
    }
  }

  /** Reading bytes and re-encoding the value at the same width gives the bytes back. */
  lemma {:induction false} LeBytesOfLeValue(s: seq<Byte>)
    ensures LeBytes(LeValue(s), |s|) == s
  {
    if s != [] {
      var x := LeValue(s);
      assert x % 256 == s[0] as nat && x / 256 == LeValue(s[1..]);
      LeBytesOfLeValue(s[1..]);
    }
  }

  /** `u64::from_le_bytes`. */
  function U64FromLeBytes(b: Bytes8): U64
  {
    Pow256Of8();
    LeValue(b) as U64
  }

  /** `u64::to_le_bytes`. */
  function U64ToLeBytes(x: U64): Bytes8
  {
    LeBytes(x as nat, 8)
  }

  /** Reading back the encoding of a 64-bit integer gives the integer. */
  lemma U64FromToLeBytes(x: U64)
    ensures U64FromLeBytes(U64ToLeBytes(x)) == x
  {
    Pow256Of8();
    LeValueOfLeBytes(x as nat, 8);
  }

  /** The other half of the round trip: every 8-byte string is the encoding of its value. */
  lemma U64ToFromLeBytes(b: Bytes8)
    ensures U64ToLeBytes(U64FromLeBytes(b)) == b
  {
    LeBytesOfLeValue(b);
  }

  /** Distinct 64-bit integers have distinct encodings. */
  lemma U64ToLeBytesInjective(x: U64, y: U64)
    requires U64ToLeBytes(x) == U64ToLeBytes(y)
    ensures x == y
  {
    U64FromToLeBytes(x);
    U64FromToLeBytes(y);
  }
}
