/** Fixed-width Rust integers and byte arrays, and little-endian decoding.

    Rust's `[u8; N]` is a value of exactly N bytes; here it is a sequence of
    bytes whose length the type fixes. `u64::from_le_bytes` reads 8 bytes with
    byte i weighing 256^i. */
module Bytes {

  newtype u8 = x: int | 0 <= x < 0x100
  newtype u64 = x: int | 0 <= x < 0x1_0000_0000_0000_0000

  type Bytes8 = s: seq<u8> | |s| == 8 witness seq(8, _ => 0)
  type Bytes32 = s: seq<u8> | |s| == 32 witness seq(32, _ => 0)
  type Bytes64 = s: seq<u8> | |s| == 64 witness seq(64, _ => 0)
  type Bytes96 = s: seq<u8> | |s| == 96 witness seq(96, _ => 0)

  const U64_MODULUS: nat := 0x1_0000_0000_0000_0000

  /** 256 to the power k. */
  function Pow256(k: nat): (p: nat)
    ensures p > 0
  {
    if k == 0 then 1 else 256 * Pow256(k - 1)
  }

  lemma EightBytesSpanU64()
    ensures Pow256(8) == U64_MODULUS
  {
  }

  /** The number whose little-endian digits in base 256 are `b`:
      the first byte is the least significant. */
  function FromLe(b: seq<u8>): (n: nat)
    ensures n < Pow256(|b|)
  {
    if b == [] then 0 else b[0] as nat + 256 * FromLe(b[1..])
  }

  /** The same number written as the positional sum of b[i] * 256^i,
      accumulated from the most significant byte down. */
  function WeightedSum(b: seq<u8>): nat
  {
    if b == [] then 0
    else WeightedSum(b[..|b| - 1]) + b[|b| - 1] as nat * Pow256(|b| - 1)
  }

  /** The n little-endian bytes of x, dropping whatever does not fit. */
  function ToLe(x: nat, n: nat): (b: seq<u8>)
    ensures |b| == n
  {
    if n == 0 then [] else [(x % 256) as u8] + ToLe(x / 256, n - 1)
  }

  lemma {:induction false} FromLeAppend(b: seq<u8>, x: u8)
    ensures FromLe(b + [x]) == FromLe(b) + x as nat * Pow256(|b|)
  {
    if b == [] {
      assert b + [x] == [x];
      assert FromLe([x][1..]) == 0;
    } else {
      assert (b + [x])[1..] == b[1..] + [x];
      FromLeAppend(b[1..], x);
      assert FromLe(b + [x]) == b[0] as nat + 256 * FromLe(b[1..] + [x]);
      assert Pow256(|b|) == 256 * Pow256(|b| - 1);
      Regroup(b[0] as nat, FromLe(b[1..]), x as nat, Pow256(|b| - 1));
    }
  }

  lemma Regroup(low: int, rest: int, x: int, w: int)
    ensures low + 256 * (rest + x * w) == (low + 256 * rest) + x * (256 * w)
  {
  }

  /** Decoding from the least significant end agrees with the positional sum. */
  lemma {:induction false} FromLeIsWeightedSum(b: seq<u8>)
    ensures FromLe(b) == WeightedSum(b)
  {
    if b != [] {
      var init := b[..|b| - 1];
      assert b == init + [b[|b| - 1]];
      FromLeIsWeightedSum(init);
      FromLeAppend(init, b[|b| - 1]);
    }
  }

  /** Encoding a number that fits in n bytes and decoding it gives it back. */
  lemma {:induction false} FromLeToLe(x: nat, n: nat)
    requires x < Pow256(n)
    ensures FromLe(ToLe(x, n)) == x
  {
    if n > 0 {
      FromLeToLe(x / 256, n - 1);
      assert ToLe(x, n)[1..] == ToLe(x / 256, n - 1);
    }
  }

  /** Decoding bytes and encoding the number at the same width gives the bytes back. */
  lemma {:induction false} ToLeFromLe(b: seq<u8>)
    ensures ToLe(FromLe(b), |b|) == b
  {
    if b != [] {
      ToLeFromLe(b[1..]);
      assert FromLe(b) % 256 == b[0] as nat;
      assert FromLe(b) / 256 == FromLe(b[1..]);
    }
  }

  /** `u64::from_le_bytes`: a bijection between 8-byte arrays and u64 values. */
  function U64FromLeBytes(b: Bytes8): (x: u64)
    ensures x as nat == WeightedSum(b)
    ensures ToLe(x as nat, 8) == b
  {
    EightBytesSpanU64();
    FromLeIsWeightedSum(b);
    ToLeFromLe(b);
    FromLe(b) as u64
  }
}
