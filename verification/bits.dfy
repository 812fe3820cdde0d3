/** Machine words as sequences of bits, lowest bit first. */
module BitWords {

  function Pow2(n: nat): (p: nat)
    ensures p > 0
  {
    if n == 0 then 1 else 2 * Pow2(n - 1)
  }

  /** The `n` low bits of `v`. */
  function Bits(v: nat, n: nat): (bs: seq<bool>)
    ensures |bs| == n
  {
    if n == 0 then [] else [v % 2 == 1] + Bits(v / 2, n - 1)
  }

  function FromBits(bs: seq<bool>): nat {
    if bs == [] then 0 else (if bs[0] then 1 else 0) + 2 * FromBits(bs[1..])
  }

  lemma {:induction false} FromBitsBound(bs: seq<bool>)
    ensures FromBits(bs) < Pow2(|bs|)
  {
    if bs != [] {
      FromBitsBound(bs[1..]);
    }
  }

  lemma {:induction false} BitsOfFromBits(bs: seq<bool>)
    ensures Bits(FromBits(bs), |bs|) == bs
  {
    if bs != [] {
      BitsOfFromBits(bs[1..]);
    }
  }

  lemma {:induction false} FromBitsOfBits(v: nat, n: nat)
    requires v < Pow2(n)
    ensures FromBits(Bits(v, n)) == v
  {
    if n > 0 {
      FromBitsOfBits(v / 2, n - 1);
    }
  }

  lemma Pow2Step(n: nat)
    ensures Pow2(n + 8) == 0x100 * Pow2(n)
  {
    assert Pow2(n + 8) == 4 * Pow2(n + 6) && Pow2(n + 6) == 4 * Pow2(n + 4);
    assert Pow2(n + 4) == 4 * Pow2(n + 2) && Pow2(n + 2) == 4 * Pow2(n);
  }

  lemma Pow2Values()
    ensures Pow2(8) == 0x100 && Pow2(32) == 0x1_0000_0000
  {
    Pow2Step(0);
    Pow2Step(8);
    Pow2Step(16);
    Pow2Step(24);
  }

  function Zeros(n: nat): (z: seq<bool>)
    ensures |z| == n && forall i :: 0 <= i < n ==> !z[i]
  {
    seq(n, _ => false)
  }

  function Ones(n: nat): (o: seq<bool>)
    ensures |o| == n && forall i :: 0 <= i < n ==> o[i]
  {
    seq(n, _ => true)
  }

  /** Bitwise exclusive or. */
  function Xor(a: seq<bool>, b: seq<bool>): (c: seq<bool>)
    requires |a| == |b|
    ensures |c| == |a| && forall i :: 0 <= i < |a| ==> c[i] == (a[i] != b[i])
  {
    seq(|a|, i requires 0 <= i < |a| => a[i] != b[i])
  }

  /** Bitwise and. */
  function And(a: seq<bool>, b: seq<bool>): (c: seq<bool>)
    requires |a| == |b|
    ensures |c| == |a| && forall i :: 0 <= i < |a| ==> c[i] == (a[i] && b[i])
  {
    seq(|a|, i requires 0 <= i < |a| => a[i] && b[i])
  }

  /** Bitwise complement. */
  function Not(a: seq<bool>): (c: seq<bool>)
    ensures |c| == |a| && forall i :: 0 <= i < |a| ==> c[i] == !a[i]
  {
    seq(|a|, i requires 0 <= i < |a| => !a[i])
  }

  /** Logical shift towards the low end by `k`. */
  function ShiftRight(a: seq<bool>, k: nat): (c: seq<bool>)
    requires k <= |a|
    ensures |c| == |a|
  {
    a[k..] + Zeros(k)
  }

  lemma FromBitsCons(b: bool, rest: seq<bool>)
    ensures FromBits([b] + rest) == BitValue(b) + 2 * FromBits(rest)
  {}

  /** One hexadecimal digit as bits. */
  function Nibble(d: nat): (bs: seq<bool>)
    requires d < 16
    ensures |bs| == 4
  {
    [d % 2 == 1, d / 2 % 2 == 1, d / 4 % 2 == 1, d / 8 % 2 == 1]
  }

  function BitValue(bit: bool): nat { if bit then 1 else 0 }

  lemma NibbleValue(d: nat, r: nat)
    requires d < 16
    ensures
      var b := Nibble(d);
      BitValue(b[0]) + 2 * (BitValue(b[1]) + 2 * (BitValue(b[2]) + 2 * (BitValue(b[3]) + 2 * r))) == d + 16 * r
  {
    assert d == d % 2 + 2 * (d / 2 % 2) + 4 * (d / 4 % 2) + 8 * (d / 8 % 2);
  }

  lemma FromFourBits(b: seq<bool>, rest: seq<bool>)
    requires |b| == 4
    ensures FromBits(b + rest)
         == BitValue(b[0]) + 2 * (BitValue(b[1]) + 2 * (BitValue(b[2]) + 2 * (BitValue(b[3]) + 2 * FromBits(rest))))
  {
    var r3 := [b[3]] + rest;
    var r2 := [b[2]] + r3;
    var r1 := [b[1]] + r2;
    assert b + rest == [b[0]] + r1;
    FromBitsCons(b[3], rest);
    FromBitsCons(b[2], r3);
    FromBitsCons(b[1], r2);
    FromBitsCons(b[0], r1);
  }

  lemma FromNibble(d: nat, rest: seq<bool>)
    requires d < 16
    ensures FromBits(Nibble(d) + rest) == d + 16 * FromBits(rest)
  {
    FromFourBits(Nibble(d), rest);
    NibbleValue(d, FromBits(rest));
  }

  /** Eight hexadecimal digits, lowest first. */
  lemma EightNibbles(d: seq<nat>)
    requires |d| == 8 && forall i :: 0 <= i < 8 ==> d[i] < 16
    ensures FromBits(Nibble(d[0]) + (Nibble(d[1]) + (Nibble(d[2]) + (Nibble(d[3])
              + (Nibble(d[4]) + (Nibble(d[5]) + (Nibble(d[6]) + (Nibble(d[7]) + []))))))))
         == d[0] + 0x10 * d[1] + 0x100 * d[2] + 0x1000 * d[3]
          + 0x1_0000 * d[4] + 0x10_0000 * d[5] + 0x100_0000 * d[6] + 0x1000_0000 * d[7]
  {
    var r7 := Nibble(d[7]) + [];
    var r6 := Nibble(d[6]) + r7;
    var r5 := Nibble(d[5]) + r6;
    var r4 := Nibble(d[4]) + r5;
    var r3 := Nibble(d[3]) + r4;
    var r2 := Nibble(d[2]) + r3;
    var r1 := Nibble(d[1]) + r2;
    FromNibble(d[7], []);
    FromNibble(d[6], r7);
    FromNibble(d[5], r6);
    FromNibble(d[4], r5);
    FromNibble(d[3], r4);
    FromNibble(d[2], r3);
    FromNibble(d[1], r2);
    FromNibble(d[0], r1);
  }

  /** A value below 2^m has no bit at position m or above. */
  lemma {:induction false} HighBitsZero(v: nat, m: nat, n: nat)
    requires v < Pow2(m)
    ensures Bits(v, m + n) == Bits(v, m) + Zeros(n)
  {
    if m > 0 {
      HighBitsZero(v / 2, m - 1, n);
    } else if n > 0 {
      HighBitsZero(0, 0, n - 1);
      assert Zeros(n) == [false] + Zeros(n - 1);
    }
  }
}
