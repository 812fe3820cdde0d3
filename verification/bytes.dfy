/** Bytes, machine integers, and their encodings as bits and as little-endian bytes. */
module Bytes {

  type byte = x: int | 0 <= x < 0x100
  type u16 = x: int | 0 <= x < 0x1_0000
  type u32 = x: int | 0 <= x < 0x1_0000_0000
  type u64 = x: int | 0 <= x < 0x1_0000_0000_0000_0000
  type i8 = x: int | -0x80 <= x < 0x80
  type i16 = x: int | -0x8000 <= x < 0x8000
  type i32 = x: int | -0x8000_0000 <= x < 0x8000_0000

  function Min(a: nat, b: nat): nat { if a <= b then a else b }

  // ── Little-endian bytes ───────────────────────────────────────────────────

  function Pow256(n: nat): (p: nat)
    ensures p > 0
  {
    if n == 0 then 1 else 256 * Pow256(n - 1)
  }

  /** The `n` low bytes of `v`, least significant first (`to_le_bytes`). */
  function Le(v: nat, n: nat): (bs: seq<byte>)
    ensures |bs| == n
  {
    if n == 0 then [] else [v % 256] + Le(v / 256, n - 1)
  }

  /** The number written in `bs`, least significant byte first (`from_le_bytes`). */
  function FromLe(bs: seq<byte>): nat {
    if bs == [] then 0 else bs[0] + 256 * FromLe(bs[1..])
  }

  lemma {:induction false} FromLeBound(bs: seq<byte>)
    ensures FromLe(bs) < Pow256(|bs|)
  {
    if bs != [] {
      FromLeBound(bs[1..]);
    }
  }

  /** Decoding an encoding gives the value back. */
  lemma {:induction false} FromLeOfLe(v: nat, n: nat)
    requires v < Pow256(n)
    ensures FromLe(Le(v, n)) == v
  {
    if n > 0 {
      FromLeOfLe(v / 256, n - 1);
    }
  }

  /** Encoding a decoding gives the bytes back. */
  lemma {:induction false} LeOfFromLe(bs: seq<byte>)
    ensures Le(FromLe(bs), |bs|) == bs
  {
    if bs != [] {
      LeOfFromLe(bs[1..]);
      LowByteApart(bs[0], FromLe(bs[1..]));
      assert bs == [bs[0]] + bs[1..];
    }
  }

  lemma LowByteApart(low: byte, rest: nat)
    ensures (low + 256 * rest) % 256 == low && (low + 256 * rest) / 256 == rest
  {}

  lemma PowValues()
    ensures Pow256(1) == 0x100 && Pow256(2) == 0x1_0000
    ensures Pow256(4) == 0x1_0000_0000 && Pow256(8) == 0x1_0000_0000_0000_0000
  {}

  function U16At(bs: seq<byte>, at: nat): (v: u16)
    requires at + 2 <= |bs|
  {
    PowValues();
    FromLeBound(bs[at..at + 2]);
    FromLe(bs[at..at + 2])
  }

  /** `u32::from_le_bytes` of the four bytes at `at`. */
  function U32At(bs: seq<byte>, at: nat): (v: u32)
    requires at + 4 <= |bs|
  {
    PowValues();
    FromLeBound(bs[at..at + 4]);
    FromLe(bs[at..at + 4])
  }

  function U64At(bs: seq<byte>, at: nat): (v: u64)
    requires at + 8 <= |bs|
  {
    PowValues();
    FromLeBound(bs[at..at + 8]);
    FromLe(bs[at..at + 8])
  }

  lemma U32RoundTrip(v: u32, rest: seq<byte>)
    ensures U32At(Le(v, 4) + rest, 0) == v
  {
    PowValues();
    FromLeOfLe(v, 4);
    assert (Le(v, 4) + rest)[0..4] == Le(v, 4);
  }

  // ── The same numbers, byte by byte ────────────────────────────────────────

  function Number16(bs: seq<byte>, at: nat): nat
    requires at + 2 <= |bs|
  {
    var (b0: int, b1: int) := (bs[at], bs[at + 1]);
    b0 + 0x100 * b1
  }

  function Number32(bs: seq<byte>, at: nat): nat
    requires at + 4 <= |bs|
  {
    var (b0: int, b1: int, b2: int, b3: int) := (bs[at], bs[at + 1], bs[at + 2], bs[at + 3]);
    b0 + 0x100 * b1 + 0x1_0000 * b2 + 0x100_0000 * b3
  }

  function Number64(bs: seq<byte>, at: nat): nat
    requires at + 8 <= |bs|
  {
    Number32(bs, at) + 0x1_0000_0000 * Number32(bs, at + 4)
  }

  lemma FirstByte(bs: seq<byte>, at: nat, end: nat)
    requires at < end <= |bs|
    ensures FromLe(bs[at..end]) == bs[at] + 256 * FromLe(bs[at + 1..end])
  {
    assert bs[at..end][1..] == bs[at + 1..end];
  }

  lemma FourBytes(bs: seq<byte>, at: nat, end: nat)
    requires at + 4 <= end <= |bs|
    ensures FromLe(bs[at..end]) == Number32(bs, at) + 0x1_0000_0000 * FromLe(bs[at + 4..end])
  {
    FirstByte(bs, at, end);
    FirstByte(bs, at + 1, end);
    FirstByte(bs, at + 2, end);
    FirstByte(bs, at + 3, end);
  }

  lemma U16Bytes(bs: seq<byte>, at: nat)
    requires at + 2 <= |bs|
    ensures U16At(bs, at) == Number16(bs, at)
  {
    FirstByte(bs, at, at + 2);
    FirstByte(bs, at + 1, at + 2);
  }

  lemma U32Bytes(bs: seq<byte>, at: nat)
    requires at + 4 <= |bs|
    ensures U32At(bs, at) == Number32(bs, at)
  {
    FourBytes(bs, at, at + 4);
  }

  lemma U64Bytes(bs: seq<byte>, at: nat)
    requires at + 8 <= |bs|
    ensures U64At(bs, at) == Number64(bs, at)
  {
    FourBytes(bs, at, at + 8);
    FourBytes(bs, at + 4, at + 8);
  }

  // ── Two's complement ──────────────────────────────────────────────────────

  function I32Bits(v: i32): u32 { if v < 0 then v + 0x1_0000_0000 else v }
  function BitsI32(v: u32): i32 { if v >= 0x8000_0000 then v - 0x1_0000_0000 else v }
  function I16Bits(v: i16): u16 { if v < 0 then v + 0x1_0000 else v }
  function BitsI16(v: u16): i16 { if v >= 0x8000 then v - 0x1_0000 else v }

  /** `v as i16` for an `i32`: keep the low sixteen bits. */
  function TruncI16(v: i32): i16 { BitsI16(v % 0x1_0000) }
}
