/**
 * The bit-serial CRC-32 of abi/src/lib.rs, and what it is for.
 *
 * A `u32` register is held as its thirty-two bits, lowest first, so that the source's `^`, `&`, `>>`
 * and `!` are operations on bit sequences. `ComputeCrc32` is the source's double loop; `Crc32` is the
 * function it computes. Reading a message one bit at a time (`BitFeed`) is the same computation, and it
 * is long division by the generator polynomial.
 */
module Crc {
  import opened Bytes
  import opened BitWords

  type Register = r: seq<bool> | |r| == 32 witness seq(32, _ => false)

  /** The reflected polynomial of the source. */
  const POLY: u32 := 0xEDB8_8320

  /**
   * The generator below x^32, highest coefficient first:
   * x^26 + x^23 + x^22 + x^16 + x^12 + x^11 + x^10 + x^8 + x^7 + x^5 + x^4 + x^2 + x + 1.
   */
  function Generator(): (g: Register)
    ensures g[31]
  {
    seq(32, i => 31 - i in {26, 23, 22, 16, 12, 11, 10, 8, 7, 5, 4, 2, 1, 0})
  }

  /** A register in pieces of four bits. */
  lemma EightPieces(g: Register)
    ensures g == g[..4] + (g[4..8] + (g[8..12] + (g[12..16]
      + (g[16..20] + (g[20..24] + (g[24..28] + (g[28..] + [])))))))
  {}

  lemma Piece(g: Register, at: nat, d: nat)
    requires at + 4 <= 32 && d < 16
    requires g[at] == (d % 2 == 1) && g[at + 1] == (d / 2 % 2 == 1)
    requires g[at + 2] == (d / 4 % 2 == 1) && g[at + 3] == (d / 8 % 2 == 1)
    ensures g[at..at + 4] == Nibble(d)
  {}

  lemma LowPieces(g: Register)
    requires g == Generator()
    ensures g[..4] == Nibble(0x0) && g[4..8] == Nibble(0x2) && g[8..12] == Nibble(0x3) && g[12..16] == Nibble(0x8)
  {
    Piece(g, 0, 0x0);
    Piece(g, 4, 0x2);
    Piece(g, 8, 0x3);
    Piece(g, 12, 0x8);
  }

  lemma HighPieces(g: Register)
    requires g == Generator()
    ensures g[16..20] == Nibble(0x8) && g[20..24] == Nibble(0xB) && g[24..28] == Nibble(0xD) && g[28..] == Nibble(0xE)
  {
    Piece(g, 16, 0x8);
    Piece(g, 20, 0xB);
    Piece(g, 24, 0xD);
    Piece(g, 28, 0xE);
  }

  /** The source's constant is the generator with its coefficients as bits, highest power lowest. */
  lemma PolyIsGenerator()
    ensures FromBits(Generator()) == POLY
  {
    var g := Generator();
    EightPieces(g);
    LowPieces(g);
    HighPieces(g);
    EightNibbles([0x0, 0x2, 0x3, 0x8, 0x8, 0xB, 0xD, 0xE]);
  }

  // ── The checksum ──────────────────────────────────────────────────────────

  function Feedback(bit: bool): Register { if bit then Generator() else Zeros(32) }

  /** One turn of the inner loop. */
  function Step(r: Register): Register { Xor(ShiftRight(r, 1), Feedback(r[0])) }

  function StepN(r: Register, n: nat): Register
    decreases n
  {
    if n == 0 then r else StepN(Step(r), n - 1)
  }

  /** The register after `data`, starting from `r`. */
  function Feed(r: Register, data: seq<byte>): Register
    decreases |data|
  {
    if data == [] then r else Feed(StepN(Xor(r, Bits(data[0], 32)), 8), data[1..])
  }

  /** The checksum register: all ones in, complemented out. */
  function CrcBits(data: seq<byte>): Register { Not(Feed(Ones(32), data)) }

  function Crc32(data: seq<byte>): u32 {
    FromBitsBound(CrcBits(data));
    Pow2Values();
    FromBits(CrcBits(data))
  }

  lemma {:induction false} StepNLast(r: Register, n: nat)
    ensures StepN(r, n + 1) == Step(StepN(r, n))
    decreases n
  {
    if n > 0 {
      StepNLast(Step(r), n - 1);
    }
  }

  method ComputeCrc32(data: seq<byte>) returns (result: u32)
    ensures result == Crc32(data)
  {
    var crc: Register := Ones(32);
    for k := 0 to |data|
      invariant Feed(Ones(32), data) == Feed(crc, data[k..])
    {
      crc := Xor(crc, Bits(data[k], 32));
      crc := ShiftOut(crc, 8);
      assert data[k..][1..] == data[k + 1..];
    }
    FromBitsBound(Not(crc));
    Pow2Values();
    result := FromBits(Not(crc));
  }

  /** The source's inner loop, run `n` times. */
  method ShiftOut(r: Register, n: nat) returns (crc: Register)
    ensures crc == StepN(r, n)
  {
    crc := r;
    for i := 0 to n
      invariant crc == StepN(r, i)
    {
      var mask: Register := if crc[0] then Ones(32) else Zeros(32);
      assert And(Generator(), mask) == Feedback(crc[0]);
      StepNLast(r, i);
      crc := Xor(ShiftRight(crc, 1), And(Generator(), mask));
    }
  }

  // ── One bit at a time ─────────────────────────────────────────────────────

  /** One step with the message bit `m` added to the low end of the register. */
  function BitStep(r: Register, m: bool): Register {
    Xor(ShiftRight(r, 1), Feedback(r[0] != m))
  }

  function BitFeed(r: Register, bits: seq<bool>): Register
    decreases |bits|
  {
    if bits == [] then r else BitFeed(BitStep(r, bits[0]), bits[1..])
  }

  /** The bits of a message in the order they enter the register. */
  function MessageBits(data: seq<byte>): (bits: seq<bool>)
    ensures |bits| == 8 * |data|
  {
    if data == [] then [] else Bits(data[0], 8) + MessageBits(data[1..])
  }

  lemma {:induction false} StepNIsBitFeed(r: Register, n: nat)
    ensures StepN(r, n) == BitFeed(r, Zeros(n))
    decreases n
  {
    if n > 0 {
      StepNIsBitFeed(Step(r), n - 1);
      assert Zeros(n)[1..] == Zeros(n - 1);
    }
  }

  lemma {:induction false} BitFeedConcat(r: Register, a: seq<bool>, b: seq<bool>)
    ensures BitFeed(r, a + b) == BitFeed(BitFeed(r, a), b)
    decreases |a|
  {
    if a == [] {
      assert a + b == b;
    } else {
      assert (a + b)[1..] == a[1..] + b;
      BitFeedConcat(BitStep(r, a[0]), a[1..], b);
    }
  }

  /** Adding a bit to the register before a step, with other bits behind it. */
  lemma StepWithBits(r: Register, bits: seq<bool>)
    requires 0 < |bits| <= 32
    ensures Step(Xor(r, bits + Zeros(32 - |bits|)))
         == Xor(BitStep(r, bits[0]), bits[1..] + Zeros(32 - |bits| + 1))
  {}

  /** Up to 32 message bits may be added to the register all at once before stepping. */
  lemma {:induction false} BitFeedAtOnce(r: Register, bits: seq<bool>)
    requires |bits| <= 32
    ensures BitFeed(r, bits) == StepN(Xor(r, bits + Zeros(32 - |bits|)), |bits|)
    decreases |bits|
  {
    if bits == [] {
      assert Xor(r, [] + Zeros(32)) == r;
    } else {
      var x := Xor(r, bits + Zeros(32 - |bits|));
      var rest, s := bits[1..], BitStep(r, bits[0]);
      StepWithBits(r, bits);
      BitFeedAtOnce(s, rest);
      assert Step(x) == Xor(s, rest + Zeros(32 - |rest|));
    }
  }

  lemma ByteBits(b: byte)
    ensures Bits(b, 32) == Bits(b, 8) + Zeros(24)
  {
    Pow2Values();
    HighBitsZero(b, 8, 24);
  }

  /** The source's bytewise loop reads the message bit by bit. */
  lemma {:induction false} FeedIsBitFeed(r: Register, data: seq<byte>)
    ensures Feed(r, data) == BitFeed(r, MessageBits(data))
    decreases |data|
  {
    if data != [] {
      ByteBits(data[0]);
      BitFeedAtOnce(r, Bits(data[0], 8));
      FeedIsBitFeed(StepN(Xor(r, Bits(data[0], 32)), 8), data[1..]);
      BitFeedConcat(r, Bits(data[0], 8), MessageBits(data[1..]));
    }
  }

  // ── Linearity ─────────────────────────────────────────────────────────────

  lemma BitStepOfXor(r: Register, s: Register, m: bool, n: bool)
    ensures BitStep(Xor(r, s), m != n) == Xor(BitStep(r, m), BitStep(s, n))
  {}

  lemma {:induction false} BitFeedOfXor(r: Register, s: Register, a: seq<bool>, b: seq<bool>)
    requires |a| == |b|
    ensures BitFeed(Xor(r, s), Xor(a, b)) == Xor(BitFeed(r, a), BitFeed(s, b))
    decreases |a|
  {
    if a != [] {
      BitStepOfXor(r, s, a[0], b[0]);
      assert Xor(a, b)[1..] == Xor(a[1..], b[1..]);
      BitFeedOfXor(BitStep(r, a[0]), BitStep(s, b[0]), a[1..], b[1..]);
    }
  }

  /** Exclusive or of two words of `n` bits. */
  function XorWord(a: nat, b: nat, n: nat): (c: nat)
    ensures Bits(c, n) == Xor(Bits(a, n), Bits(b, n)) && c < Pow2(n)
  {
    var x := Xor(Bits(a, n), Bits(b, n));
    BitsOfFromBits(x);
    FromBitsBound(x);
    FromBits(x)
  }

  /** Bytewise exclusive or of two messages of one length. */
  function XorMessages(a: seq<byte>, b: seq<byte>): (c: seq<byte>)
    requires |a| == |b|
    ensures |c| == |a|
  {
    Pow2Values();
    if a == [] then [] else [XorWord(a[0], b[0], 8)] + XorMessages(a[1..], b[1..])
  }

  lemma {:induction false} MessageBitsOfXor(a: seq<byte>, b: seq<byte>)
    requires |a| == |b|
    ensures MessageBits(XorMessages(a, b)) == Xor(MessageBits(a), MessageBits(b))
  {
    if a != [] {
      MessageBitsOfXor(a[1..], b[1..]);
    }
  }

  lemma FeedOfXor(r: Register, s: Register, a: seq<byte>, b: seq<byte>)
    requires |a| == |b|
    ensures Feed(Xor(r, s), XorMessages(a, b)) == Xor(Feed(r, a), Feed(s, b))
  {
    MessageBitsOfXor(a, b);
    FeedIsBitFeed(r, a);
    FeedIsBitFeed(s, b);
    FeedIsBitFeed(Xor(r, s), XorMessages(a, b));
    BitFeedOfXor(r, s, MessageBits(a), MessageBits(b));
  }

  lemma NotOfThree(x: Register, y: Register, z: Register)
    ensures Not(Xor(Xor(x, y), z)) == Xor(Xor(Not(x), Not(y)), Not(z))
    ensures Xor(Xor(x, x), x) == x
  {}

  lemma CrcBitsIsAffine(a: seq<byte>, b: seq<byte>, c: seq<byte>)
    requires |a| == |b| == |c|
    ensures CrcBits(XorMessages(XorMessages(a, b), c)) == Xor(Xor(CrcBits(a), CrcBits(b)), CrcBits(c))
  {
    var ones := Ones(32);
    NotOfThree(ones, ones, ones);
    FeedOfXor(ones, ones, a, b);
    FeedOfXor(Xor(ones, ones), ones, XorMessages(a, b), c);
    NotOfThree(Feed(ones, a), Feed(ones, b), Feed(ones, c));
  }

  /** The checksum is affine: for any three messages of one length. */
  lemma CrcIsAffine(a: seq<byte>, b: seq<byte>, c: seq<byte>)
    requires |a| == |b| == |c|
    ensures Crc32(XorMessages(XorMessages(a, b), c)) == XorWord(XorWord(Crc32(a), Crc32(b), 32), Crc32(c), 32)
  {
    CrcBitsIsAffine(a, b, c);
    BitsOfFromBits(CrcBits(a));
    BitsOfFromBits(CrcBits(b));
    BitsOfFromBits(CrcBits(c));
    FromBitsOfBits(XorWord(XorWord(Crc32(a), Crc32(b), 32), Crc32(c), 32), 32);
  }

  // ── Burst detection ───────────────────────────────────────────────────────

  /** No two registers step to one register on the same bit: the top bit tells what was fed back. */
  lemma BitStepInjective(r: Register, s: Register, m: bool)
    requires BitStep(r, m) == BitStep(s, m)
    ensures r == s
  {
    assert BitStep(r, m)[31] == (r[0] != m) && BitStep(s, m)[31] == (s[0] != m);
    var f := Feedback(r[0] != m);
    forall i | 1 <= i < 32
      ensures r[i] == s[i]
    {
      assert BitStep(r, m)[i - 1] == (r[i] != f[i - 1]);
      assert BitStep(s, m)[i - 1] == (s[i] != f[i - 1]);
    }
  }

  lemma {:induction false} BitFeedInjective(r: Register, s: Register, bits: seq<bool>)
    requires BitFeed(r, bits) == BitFeed(s, bits)
    ensures r == s
    decreases |bits|
  {
    if bits != [] {
      BitFeedInjective(BitStep(r, bits[0]), BitStep(s, bits[0]), bits[1..]);
      BitStepInjective(r, s, bits[0]);
    }
  }

  /** From one register, no two windows of up to 32 bits lead to one register. */
  lemma WindowInjective(r: Register, v: seq<bool>, w: seq<bool>)
    requires |v| == |w| <= 32 && BitFeed(r, v) == BitFeed(r, w)
    ensures v == w
  {
    var x, y := Xor(r, v + Zeros(32 - |v|)), Xor(r, w + Zeros(32 - |w|));
    BitFeedAtOnce(r, v);
    BitFeedAtOnce(r, w);
    StepNIsBitFeed(x, |v|);
    StepNIsBitFeed(y, |v|);
    BitFeedInjective(x, y, Zeros(|v|));
    forall i | 0 <= i < |v|
      ensures v[i] == w[i]
    {
      assert x[i] == (r[i] != v[i]) && y[i] == (r[i] != w[i]);
    }
  }

  /** `a` and `b` agree outside the 32 bits that start at bit `k`. */
  ghost predicate DifferInWindow(a: seq<bool>, b: seq<bool>, k: nat) {
    && |a| == |b|
    && forall i :: 0 <= i < |a| && !(k <= i < k + 32) ==> a[i] == b[i]
  }

  /** A message split at the ends of its window. */
  lemma BitFeedInThree(r: Register, m: seq<bool>, lo: nat, hi: nat)
    requires lo <= hi <= |m|
    ensures BitFeed(r, m) == BitFeed(BitFeed(BitFeed(r, m[..lo]), m[lo..hi]), m[hi..])
  {
    BitFeedConcat(r, m[..lo], m[lo..]);
    BitFeedConcat(BitFeed(r, m[..lo]), m[lo..hi], m[hi..]);
    assert m == m[..lo] + m[lo..] && m[lo..] == m[lo..hi] + m[hi..];
  }

  lemma SamePieces(m: seq<bool>, n: seq<bool>, lo: nat, hi: nat)
    requires |m| == |n| && lo <= hi <= |m|
    requires m[..lo] == n[..lo] && m[lo..hi] == n[lo..hi] && m[hi..] == n[hi..]
    ensures m == n
  {}

  lemma OutsideWindow(m: seq<bool>, n: seq<bool>, k: nat) returns (lo: nat, hi: nat)
    requires DifferInWindow(m, n, k)
    ensures lo <= hi <= |m| && hi - lo <= 32 && m[..lo] == n[..lo] && m[hi..] == n[hi..]
  {
    lo := if k < |m| then k else |m|;
    hi := if k + 32 < |m| then k + 32 else |m|;
  }

  lemma BitBurstDetected(r: Register, m: seq<bool>, n: seq<bool>, k: nat)
    requires DifferInWindow(m, n, k) && BitFeed(r, m) == BitFeed(r, n)
    ensures m == n
  {
    var lo, hi := OutsideWindow(m, n, k);
    var s := BitFeed(r, m[..lo]);
    BitFeedInThree(r, m, lo, hi);
    BitFeedInThree(r, n, lo, hi);
    BitFeedInjective(BitFeed(s, m[lo..hi]), BitFeed(s, n[lo..hi]), m[hi..]);
    WindowInjective(s, m[lo..hi], n[lo..hi]);
    SamePieces(m, n, lo, hi);
  }

  lemma {:induction false} MessageBitsInjective(a: seq<byte>, b: seq<byte>)
    requires MessageBits(a) == MessageBits(b)
    ensures a == b
  {
    if a != [] {
      Pow2Values();
      assert MessageBits(a)[..8] == Bits(a[0], 8) && MessageBits(b)[..8] == Bits(b[0], 8);
      assert MessageBits(a)[8..] == MessageBits(a[1..]) && MessageBits(b)[8..] == MessageBits(b[1..]);
      FromBitsOfBits(a[0], 8);
      FromBitsOfBits(b[0], 8);
      MessageBitsInjective(a[1..], b[1..]);
    }
  }

  /** Checksums agree exactly when the bits lead to one register. */
  lemma ChecksumIsFeed(a: seq<byte>, b: seq<byte>)
    ensures Crc32(a) == Crc32(b) <==> BitFeed(Ones(32), MessageBits(a)) == BitFeed(Ones(32), MessageBits(b))
  {
    BitsOfFromBits(CrcBits(a));
    BitsOfFromBits(CrcBits(b));
    FeedIsBitFeed(Ones(32), a);
    FeedIsBitFeed(Ones(32), b);
    NotInjective(Feed(Ones(32), a), Feed(Ones(32), b));
  }

  lemma NotInjective(x: Register, y: Register)
    ensures Not(x) == Not(y) <==> x == y
  {
    assert Not(Not(x)) == x && Not(Not(y)) == y;
  }

  /** Every burst of up to 32 bits, at any alignment and in a message of any length, is detected. */
  lemma BurstDetected(a: seq<byte>, b: seq<byte>, k: nat)
    requires a != b && DifferInWindow(MessageBits(a), MessageBits(b), k)
    ensures Crc32(a) != Crc32(b)
  {
    ChecksumIsFeed(a, b);
    if Crc32(a) == Crc32(b) {
      BitBurstDetected(Ones(32), MessageBits(a), MessageBits(b), k);
      MessageBitsInjective(a, b);
    }
  }

  lemma SkipEight(first: seq<bool>, rest: seq<bool>, at: nat)
    requires |first| == 8 && at < |rest|
    ensures (first + rest)[at + 8] == rest[at]
  {}

  lemma {:induction false} MessageBitsAt(data: seq<byte>, j: nat, i: nat)
    requires j < |data| && i < 8
    ensures MessageBits(data)[8 * j + i] == Bits(data[j], 8)[i]
  {
    if j > 0 {
      MessageBitsAt(data[1..], j - 1, i);
      SkipEight(Bits(data[0], 8), MessageBits(data[1..]), 8 * (j - 1) + i);
    }
  }

  /** In bytes: messages that differ only inside four consecutive bytes have different checksums. */
  lemma FourByteBurstDetected(a: seq<byte>, b: seq<byte>, j: nat)
    requires |a| == |b| && a != b
    requires forall i :: 0 <= i < |a| && !(j <= i < j + 4) ==> a[i] == b[i]
    ensures Crc32(a) != Crc32(b)
  {
    forall i | 0 <= i < 8 * |a| && !(8 * j <= i < 8 * j + 32)
      ensures MessageBits(a)[i] == MessageBits(b)[i]
    {
      MessageBitsAt(a, i / 8, i % 8);
      MessageBitsAt(b, i / 8, i % 8);
    }
    BurstDetected(a, b, 8 * j);
  }

  lemma ZeroFeed(n: nat)
    ensures StepN(Zeros(32), n) == Zeros(32)
    decreases n
  {
    if n > 0 {
      assert Step(Zeros(32)) == Zeros(32);
      ZeroFeed(n - 1);
    }
  }

  lemma SelfFeed(g: Register)
    ensures BitFeed(g, g) == Zeros(32)
  {
    BitFeedAtOnce(g, g);
    assert Xor(g, g + Zeros(32 - |g|)) == Zeros(32);
    ZeroFeed(|g|);
  }

  lemma GeneratorFeedsToZero()
    ensures BitFeed(Zeros(32), [true] + Generator()) == Zeros(32)
  {
    assert BitStep(Zeros(32), true) == Generator();
    assert ([true] + Generator())[1..] == Generator();
    SelfFeed(Generator());
  }

  /** The bound is sharp: a 33-bit burst in the shape of the generator leaves every register as it was. */
  lemma Burst33Undetected(r: Register, before: seq<bool>, window: seq<bool>, after: seq<bool>)
    requires |window| == 33
    ensures BitFeed(r, before + Xor(window, [true] + Generator()) + after) == BitFeed(r, before + window + after)
  {
    var s := BitFeed(r, before);
    GeneratorFeedsToZero();
    assert Xor(s, Zeros(32)) == s && Xor(BitFeed(s, window), Zeros(32)) == BitFeed(s, window);
    BitFeedOfXor(s, Zeros(32), window, [true] + Generator());
    BitFeedConcat(r, before, window);
    BitFeedConcat(r, before, Xor(window, [true] + Generator()));
    BitFeedConcat(r, before + window, after);
    BitFeedConcat(r, before + Xor(window, [true] + Generator()), after);
  }

  // ── Polynomial division ───────────────────────────────────────────────────

  /**
   * The remainder of the polynomial with coefficients `p`, highest first, divided by x^32 + `g`:
   * schoolbook long division over GF(2).
   */
  function Remainder(p: seq<bool>, g: Register): Register
    requires |p| >= 32
    decreases |p|
  {
    if |p| == 32 then p
    else Remainder(Xor(p[1..], (if p[0] then g else Zeros(32)) + Zeros(|p| - 33)), g)
  }

  /** The product of the polynomials `q` and x^32 + `g`, coefficients highest first. */
  function Product(q: seq<bool>, g: Register): (p: seq<bool>)
    ensures |p| == |q| + 32
    decreases |q|
  {
    if q == [] then Zeros(32)
    else Xor((if q[0] then [true] + g else Zeros(33)) + Zeros(|q| - 1), [false] + Product(q[1..], g))
  }

  /** `Product(q, g)` plus the remainder `r`. */
  function Combined(q: seq<bool>, g: Register, r: Register): (p: seq<bool>)
    ensures |p| == |q| + 32
  {
    Xor(Product(q, g), Zeros(|q|) + r)
  }

  function Quotient(p: seq<bool>, g: Register): (q: seq<bool>)
    requires |p| >= 32
    ensures |q| == |p| - 32
    decreases |p|
  {
    if |p| == 32 then []
    else [p[0]] + Quotient(Xor(p[1..], (if p[0] then g else Zeros(32)) + Zeros(|p| - 33)), g)
  }

  /** One coefficient of the quotient comes first in the product, and the rest combines as before. */
  lemma CombinedStep(q: seq<bool>, g: Register, r: Register)
    requires q != []
    ensures Combined(q, g, r) ==
      [q[0]] + Xor(Combined(q[1..], g, r), (if q[0] then g else Zeros(32)) + Zeros(|q| - 1))
  {
    var n := |q| - 1;
    var head: seq<bool> := if q[0] then g else Zeros(32);
    var rest := Product(q[1..], g);
    ProductStep(q, g, head, rest);
    XorShifts(head + Zeros(n), rest, Zeros(n) + r);
    assert Zeros(|q|) + r == [false] + (Zeros(n) + r);
    XorOfCons(q[0], Xor(head + Zeros(n), rest), false, Zeros(n) + r);
  }

  lemma XorOfCons(a: bool, x: seq<bool>, b: bool, y: seq<bool>)
    requires |x| == |y|
    ensures Xor([a] + x, [b] + y) == [a != b] + Xor(x, y)
  {}

  lemma XorShifts(x: seq<bool>, y: seq<bool>, z: seq<bool>)
    requires |x| == |y| == |z|
    ensures Xor(Xor(x, y), z) == Xor(Xor(y, z), x)
  {}

  lemma ProductStep(q: seq<bool>, g: Register, head: seq<bool>, rest: seq<bool>)
    requires q != [] && head == (if q[0] then g else Zeros(32)) && rest == Product(q[1..], g)
    ensures Product(q, g) == [q[0]] + Xor(head + Zeros(|q| - 1), rest)
  {
    var n := |q| - 1;
    assert (if q[0] then [true] + g else Zeros(33)) + Zeros(n) == [q[0]] + (head + Zeros(n));
    XorOfCons(q[0], head + Zeros(n), false, rest);
  }

  /** What the leading coefficient takes away, and what is left. */
  function TakenAway(p: seq<bool>, g: Register): (t: seq<bool>)
    requires |p| >= 33
    ensures |t| == |p| - 1
  {
    (if p[0] then g else Zeros(32)) + Zeros(|p| - 33)
  }

  lemma TakenTwice(a: seq<bool>, b: seq<bool>)
    requires |a| == |b|
    ensures Xor(Xor(a, b), b) == a
  {}

  lemma {:induction false} DivisionCombines(p: seq<bool>, g: Register)
    requires |p| >= 32
    ensures p == Combined(Quotient(p, g), g, Remainder(p, g))
    decreases |p|
  {
    if |p| > 32 {
      var rest := Xor(p[1..], TakenAway(p, g));
      var q := Quotient(p, g);
      DivisionCombines(rest, g);
      assert q == [p[0]] + Quotient(rest, g);
      CombinedStep(q, g, Remainder(rest, g));
      TakenTwice(p[1..], TakenAway(p, g));
      assert p == [p[0]] + p[1..];
    }
  }

  lemma {:induction false} CombinedIsUnique(q: seq<bool>, g: Register, r: Register)
    ensures Quotient(Combined(q, g, r), g) == q && Remainder(Combined(q, g, r), g) == r
    decreases |q|
  {
    var p := Combined(q, g, r);
    if q == [] {
      assert p == r;
    } else {
      var head := (if q[0] then g else Zeros(32)) + Zeros(|q| - 1);
      var rest := Combined(q[1..], g, r);
      CombinedStep(q, g, r);
      assert p[0] == q[0] && Xor(p[1..], head) == rest;
      CombinedIsUnique(q[1..], g, r);
      assert q == [q[0]] + q[1..];
    }
  }

  /** The long division is division with remainder: quotient and remainder are the only ones of their sizes. */
  lemma RemainderExactly(p: seq<bool>, g: Register, q: seq<bool>, r: Register)
    requires |p| == |q| + 32
    ensures p == Combined(q, g, r) <==> q == Quotient(p, g) && r == Remainder(p, g)
  {
    DivisionCombines(p, g);
    CombinedIsUnique(q, g, r);
  }

  /** One step of the division is one step of the register, with the message as it comes in. */
  lemma DivisionStep(r: Register, bits: seq<bool>)
    requires bits != []
    ensures
      var p := Xor(r + Zeros(|bits|), bits + Zeros(32));
      var n := |bits| - 1;
      && p[0] == (r[0] != bits[0])
      && Xor(p[1..], Feedback(p[0]) + Zeros(n)) == Xor(BitStep(r, bits[0]) + Zeros(n), bits[1..] + Zeros(32))
  {}

  lemma {:induction false} BitFeedIsDivision(r: Register, bits: seq<bool>)
    ensures BitFeed(r, bits) == Remainder(Xor(r + Zeros(|bits|), bits + Zeros(32)), Generator())
    decreases |bits|
  {
    if bits == [] {
      assert Xor(r + Zeros(0), [] + Zeros(32)) == r;
    } else {
      DivisionStep(r, bits);
      BitFeedIsDivision(BitStep(r, bits[0]), bits[1..]);
    }
  }

  /**
   * The checksum is the mathematical CRC: complement the first 32 message bits (the all-ones preset),
   * multiply by x^32, divide by the generator, complement the remainder. The lowest bit of each byte,
   * and of the result, is the highest coefficient.
   */
  lemma CrcIsPolynomialRemainder(data: seq<byte>)
    ensures CrcBits(data) ==
      Not(Remainder(Xor(Ones(32) + Zeros(8 * |data|), MessageBits(data) + Zeros(32)), Generator()))
  {
    FeedIsBitFeed(Ones(32), data);
    BitFeedIsDivision(Ones(32), MessageBits(data));
  }

  function Reverse(bs: seq<bool>): (r: seq<bool>)
    ensures |r| == |bs| && forall i :: 0 <= i < |bs| ==> r[i] == bs[|bs| - 1 - i]
  {
    seq(|bs|, i requires 0 <= i < |bs| => bs[|bs| - 1 - i])
  }

  /** The bits of `d` are those of `e` backwards. */
  predicate Mirrored(d: nat, e: nat)
    requires d < 16 && e < 16
  {
    var b, c := Nibble(d), Nibble(e);
    b[0] == c[3] && b[1] == c[2] && b[2] == c[1] && b[3] == c[0]
  }

  lemma ReversedPiece(g: Register, at: nat, e: nat, d: nat)
    requires at + 4 <= 32 && d < 16 && e < 16
    requires g[28 - at..32 - at] == Nibble(e) && Mirrored(d, e)
    ensures Reverse(g)[at..at + 4] == Nibble(d)
  {
    var r, from := Reverse(g), 28 - at;
    var piece := g[from..from + 4];
    assert piece[0] == g[from] && piece[1] == g[from + 1] && piece[2] == g[from + 2] && piece[3] == g[from + 3];
    assert r[at] == g[from + 3] && r[at + 1] == g[from + 2] && r[at + 2] == g[from + 1] && r[at + 3] == g[from];
    assert r[at..at + 4] == [r[at], r[at + 1], r[at + 2], r[at + 3]];
  }

  lemma ReversedLowPieces(g: Register, r: Register)
    requires g == Generator() && r == Reverse(g)
    ensures r[..4] == Nibble(0x7) && r[4..8] == Nibble(0xB) && r[8..12] == Nibble(0xD) && r[12..16] == Nibble(0x1)
  {
    HighPieces(g);
    ReversedPiece(g, 0, 0xE, 0x7);
    ReversedPiece(g, 4, 0xD, 0xB);
    ReversedPiece(g, 8, 0xB, 0xD);
    ReversedPiece(g, 12, 0x8, 0x1);
  }

  lemma ReversedHighPieces(g: Register, r: Register)
    requires g == Generator() && r == Reverse(g)
    ensures r[16..20] == Nibble(0x1) && r[20..24] == Nibble(0xC) && r[24..28] == Nibble(0x4) && r[28..] == Nibble(0x0)
  {
    LowPieces(g);
    ReversedPiece(g, 16, 0x8, 0x1);
    ReversedPiece(g, 20, 0x3, 0xC);
    ReversedPiece(g, 24, 0x2, 0x4);
    ReversedPiece(g, 28, 0x0, 0x0);
  }

  /** Unreflected, the generator is the usual constant 0x04C11DB7. */
  lemma GeneratorIsStandard()
    ensures FromBits(Reverse(Generator())) == 0x04C1_1DB7
  {
    EightPieces(Reverse(Generator()));
    ReversedLowPieces(Generator(), Reverse(Generator()));
    ReversedHighPieces(Generator(), Reverse(Generator()));
    EightNibbles([0x7, 0xB, 0xD, 0x1, 0x1, 0xC, 0x4, 0x0]);
  }

  // ── What the checksum misses ──────────────────────────────────────────────

  lemma XorOfEqual(x: Register, y: Register)
    ensures x == y <==> Xor(x, y) == Zeros(32)
  {
    assert forall i :: 0 <= i < 32 ==> Xor(x, y)[i] == (x[i] != y[i]);
  }

  /** The register after a message, starting from zero, is the remainder of the message times x^32. */
  lemma FeedFromZero(data: seq<byte>)
    ensures Feed(Zeros(32), data) == Remainder(MessageBits(data) + Zeros(32), Generator())
  {
    var bits := MessageBits(data);
    FeedIsBitFeed(Zeros(32), data);
    BitFeedIsDivision(Zeros(32), bits);
    assert Xor(Zeros(32) + Zeros(|bits|), bits + Zeros(32)) == bits + Zeros(32);
  }

  /** The checksum misses exactly the differences that, times x^32, the generator divides. */
  lemma MissedExactly(a: seq<byte>, b: seq<byte>)
    requires |a| == |b|
    ensures Crc32(a) == Crc32(b) <==>
      Remainder(MessageBits(XorMessages(a, b)) + Zeros(32), Generator()) == Zeros(32)
  {
    var ones: Register := Ones(32);
    ChecksumIsFeed(a, b);
    FeedIsBitFeed(ones, a);
    FeedIsBitFeed(ones, b);
    XorOfEqual(Feed(ones, a), Feed(ones, b));
    FeedOfXor(ones, ones, a, b);
    assert Xor(ones, ones) == Zeros(32);
    FeedFromZero(XorMessages(a, b));
  }

  /** The message with the given bits. */
  function BytesOf(bits: seq<bool>): (data: seq<byte>)
    requires |bits| % 8 == 0
    ensures MessageBits(data) == bits
  {
    if bits == [] then []
    else
      Pow2Values();
      FromBitsBound(bits[..8]);
      BitsOfFromBits(bits[..8]);
      var data := [FromBits(bits[..8])] + BytesOf(bits[8..]);
      assert data[1..] == BytesOf(bits[8..]) && bits == bits[..8] + bits[8..];
      data
  }

  /** `m` with the generator's 33 bits added from bit `k` on. */
  function PlusGenerator(m: seq<bool>, k: nat): (n: seq<bool>)
    requires k + 33 <= |m|
    ensures |n| == |m|
  {
    m[..k] + Xor(m[k..k + 33], [true] + Generator()) + m[k + 33..]
  }

  lemma PlusGeneratorDiffers(m: seq<bool>, k: nat)
    requires k + 33 <= |m|
    ensures PlusGenerator(m, k)[k] != m[k]
    ensures forall i :: 0 <= i < |m| && !(k <= i < k + 33) ==> PlusGenerator(m, k)[i] == m[i]
  {}

  lemma PlusGeneratorFeeds(r: Register, m: seq<bool>, k: nat)
    requires k + 33 <= |m|
    ensures BitFeed(r, PlusGenerator(m, k)) == BitFeed(r, m)
  {
    assert m == m[..k] + m[k..k + 33] + m[k + 33..];
    Burst33Undetected(r, m[..k], m[k..k + 33], m[k + 33..]);
  }

  /** In messages: each one has, at every alignment, another that differs within 33 bits and is not told apart. */
  lemma Burst33Missed(a: seq<byte>, k: nat) returns (b: seq<byte>)
    requires k + 33 <= 8 * |a|
    ensures |b| == |a| && a != b && Crc32(a) == Crc32(b)
    ensures forall i :: 0 <= i < 8 * |a| && !(k <= i < k + 33) ==> MessageBits(a)[i] == MessageBits(b)[i]
  {
    var m := MessageBits(a);
    b := BytesOf(PlusGenerator(m, k));
    PlusGeneratorDiffers(m, k);
    PlusGeneratorFeeds(Ones(32), m, k);
    ChecksumIsFeed(a, b);
  }

  // ── The table form of section 8 of RFC 1952 ───────────────────────────────

  /** The turns of `make_crc_table`: `n` of them, starting from `c`. */
  function TableTurns(c: Register, n: nat): Register
    decreases n
  {
    if n == 0 then c
    else TableTurns(if c[0] then Xor(Generator(), ShiftRight(c, 1)) else ShiftRight(c, 1), n - 1)
  }

  /** `crc_table[n]`. */
  function TableEntry(n: byte): Register { TableTurns(Bits(n, 32), 8) }

  /** `update_crc`: `crc_table[(c ^ buf[n]) & 0xff] ^ (c >> 8)` for each byte. */
  function TableFeed(c: Register, data: seq<byte>): Register
    decreases |data|
  {
    if data == [] then c
    else TableFeed(Xor(TableEntry(LowByte(Xor(c, Bits(data[0], 32)))), ShiftRight(c, 8)), data[1..])
  }

  function LowByte(r: Register): byte {
    FromBitsBound(r[..8]);
    Pow2Values();
    FromBits(r[..8])
  }

  lemma {:induction false} TableTurnsAreSteps(c: Register, n: nat)
    ensures TableTurns(c, n) == StepN(c, n)
    decreases n
  {
    if n > 0 {
      var t: Register := if c[0] then Xor(Generator(), ShiftRight(c, 1)) else ShiftRight(c, 1);
      assert t == Step(c);
      TableTurnsAreSteps(t, n - 1);
    }
  }

  lemma {:induction false} StepNOfZeros(r: Register, n: nat)
    requires n <= 32 && forall i :: 0 <= i < n ==> !r[i]
    ensures StepN(r, n) == ShiftRight(r, n)
    decreases n
  {
    if n > 0 {
      assert Step(r) == ShiftRight(r, 1);
      StepNOfZeros(Step(r), n - 1);
    }
  }

  lemma StepNOfXor(r: Register, s: Register, n: nat)
    ensures StepN(Xor(r, s), n) == Xor(StepN(r, n), StepN(s, n))
  {
    StepNIsBitFeed(r, n);
    StepNIsBitFeed(s, n);
    StepNIsBitFeed(Xor(r, s), n);
    assert Xor(Zeros(n), Zeros(n)) == Zeros(n);
    BitFeedOfXor(r, s, Zeros(n), Zeros(n));
  }

  /** `n` steps act on the `n` low bits, and shift the others. */
  lemma StepNSplits(x: Register, n: nat)
    requires n <= 32
    ensures StepN(x, n) == Xor(StepN(x[..n] + Zeros(32 - n), n), ShiftRight(x, n))
  {
    var low: Register, high: Register := x[..n] + Zeros(32 - n), Zeros(n) + x[n..];
    assert x == Xor(low, high);
    StepNOfXor(low, high, n);
    StepNOfZeros(high, n);
    assert ShiftRight(high, n) == ShiftRight(x, n);
  }

  lemma TableEntryOfLowByte(x: Register)
    ensures TableEntry(LowByte(x)) == StepN(x[..8] + Zeros(24), 8)
  {
    ByteBits(LowByte(x));
    BitsOfFromBits(x[..8]);
    TableTurnsAreSteps(x[..8] + Zeros(24), 8);
  }

  lemma TableStep(c: Register, b: byte)
    ensures StepN(Xor(c, Bits(b, 32)), 8) == Xor(TableEntry(LowByte(Xor(c, Bits(b, 32)))), ShiftRight(c, 8))
  {
    var x := Xor(c, Bits(b, 32));
    ByteBits(b);
    assert ShiftRight(x, 8) == ShiftRight(c, 8);
    StepNSplits(x, 8);
    TableEntryOfLowByte(x);
  }

  lemma {:induction false} TableFeedIsFeed(c: Register, data: seq<byte>)
    ensures TableFeed(c, data) == Feed(c, data)
    decreases |data|
  {
    if data != [] {
      TableStep(c, data[0]);
      TableFeedIsFeed(StepN(Xor(c, Bits(data[0], 32)), 8), data[1..]);
    }
  }

  /** The bit-serial checksum is the table-driven one of RFC 1952, on every input. */
  lemma CrcIsTableDriven(data: seq<byte>)
    ensures Crc32(data) == FromBits(Not(TableFeed(Not(Zeros(32)), data)))
  {
    assert Not(Zeros(32)) == Ones(32);
    TableFeedIsFeed(Ones(32), data);
  }
}
