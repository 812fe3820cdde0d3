/**
 * The telemetry wire formats of abi/src/lib.rs: the capacity-checked little-endian serializer, the two
 * records, and the tagged packet.
 */
module Codec {
  import opened Wrappers
  import opened Bytes

  // ── The serializer ────────────────────────────────────────────────────────

  /** One value to write. */
  datatype Field = U8(b: byte) | U16(h: u16) | I16(s: i16) | U32(w: u32) | I32(i: i32) | U64(q: u64)

  /** Its little-endian bytes. */
  function Encoded(f: Field): seq<byte> {
    match f
    case U8(b) => Le(b, 1)
    case U16(h) => Le(h, 2)
    case I16(s) => Le(I16Bits(s), 2)
    case U32(w) => Le(w, 4)
    case I32(i) => Le(I32Bits(i), 4)
    case U64(q) => Le(q, 8)
  }

  lemma ReadsBack(v: nat, n: nat)
    requires n == 2 || n == 4 || n == 8
    requires v < Pow256(n)
    ensures n == 2 ==> Number16(Le(v, n), 0) == v
    ensures n == 4 ==> Number32(Le(v, n), 0) == v
    ensures n == 8 ==> Number64(Le(v, n), 0) == v
  {
    FromLeOfLe(v, n);
    var bs := Le(v, n);
    assert bs[0..n] == bs;
    if n == 2 {
      U16Bytes(bs, 0);
    } else if n == 4 {
      U32Bytes(bs, 0);
    } else {
      U64Bytes(bs, 0);
    }
  }

  /** What each value writes, byte by byte: its own width, negative values in two's complement. */
  lemma FieldLayout(f: Field)
    ensures
      var bs := Encoded(f);
      match f
      case U8(b) => bs == [b]
      case U16(h) => |bs| == 2 && Number16(bs, 0) == h
      case I16(s) => |bs| == 2 && Number16(bs, 0) == s % 0x1_0000
      case U32(w) => |bs| == 4 && Number32(bs, 0) == w
      case I32(i) => |bs| == 4 && Number32(bs, 0) == i % 0x1_0000_0000
      case U64(q) => |bs| == 8 && Number64(bs, 0) == q
  {
    PowValues();
    match f
    case U8(b) => assert Le(b / 256, 0) == [];
    case U16(h) => ReadsBack(h, 2);
    case I16(s) => ReadsBack(I16Bits(s), 2);
    case U32(w) => ReadsBack(w, 4);
    case I32(i) => ReadsBack(I32Bits(i), 4);
    case U64(q) => ReadsBack(q, 8);
  }

  predicate Fits(written: nat, capacity: nat, f: Field) { written + |Encoded(f)| <= capacity }

  /** The contents after one more write: all of it, or nothing if it does not fit. */
  function Extended(capacity: nat, written: seq<byte>, f: Field): seq<byte> {
    written + if Fits(|written|, capacity, f) then Encoded(f) else []
  }

  class CdrSerializer {
    const buf: array<byte>
    var pos: nat

    ghost predicate Valid()
      reads this
    {
      pos <= buf.Length
    }

    /** `as_bytes`. */
    function Written(): seq<byte>
      requires Valid()
      reads this, buf
    {
      buf[..pos]
    }

    constructor (capacity: nat)
      ensures Valid() && Written() == [] && buf.Length == capacity && fresh(buf)
    {
      buf := new byte[capacity](_ => 0);
      pos := 0;
    }

    /** The bounds check and copy shared by the writers: all of `bytes`, or nothing. */
    method Append(bytes: seq<byte>) returns (ok: bool)
      requires Valid()
      modifies this, buf
      ensures Valid() && ok == (old(pos) + |bytes| <= buf.Length)
      ensures Written() == old(Written()) + if ok then bytes else []
    {
      if pos + |bytes| > buf.Length {
        return false;
      }
      forall k | 0 <= k < |bytes| {
        buf[pos + k] := bytes[k];
      }
      pos := pos + |bytes|;
      ok := true;
    }

    method Write(f: Field) returns (ok: bool)
      requires Valid()
      modifies this, buf
      ensures Valid() && ok == Fits(|old(Written())|, buf.Length, f)
      ensures Written() == old(Written()) + (if ok then Encoded(f) else []) == Extended(buf.Length, old(Written()), f)
    {
      ok := Append(Encoded(f));
    }
  }

  /** The contents after a sequence of writes into a serializer of some capacity. */
  function WriteAll(capacity: nat, fs: seq<Field>): (written: seq<byte>)
    ensures |written| <= capacity
  {
    if fs == [] then [] else Extended(capacity, WriteAll(capacity, fs[..|fs| - 1]), fs[|fs| - 1])
  }

  function Concat(fs: seq<Field>): seq<byte> {
    if fs == [] then [] else Concat(fs[..|fs| - 1]) + Encoded(fs[|fs| - 1])
  }

  /** The writes that succeed. */
  function Succeeding(capacity: nat, fs: seq<Field>): seq<Field> {
    if fs == [] then []
    else
      var before := Succeeding(capacity, fs[..|fs| - 1]);
      if Fits(|WriteAll(capacity, fs[..|fs| - 1])|, capacity, fs[|fs| - 1]) then before + [fs[|fs| - 1]] else before
  }

  /** For every capacity and write sequence, the contents are the encodings of the writes that succeeded. */
  lemma {:induction false} HoldsWhatSucceeded(capacity: nat, fs: seq<Field>)
    ensures WriteAll(capacity, fs) == Concat(Succeeding(capacity, fs))
  {
    if fs != [] {
      var prefix, last := fs[..|fs| - 1], fs[|fs| - 1];
      HoldsWhatSucceeded(capacity, prefix);
      var kept := Succeeding(capacity, prefix);
      assert (kept + [last])[..|kept|] == kept;
    }
  }

  lemma {:induction false} NeverLonger(capacity: nat, fs: seq<Field>)
    ensures |Succeeding(capacity, fs)| <= |fs| && |WriteAll(capacity, fs)| <= |Concat(fs)|
  {
    if fs != [] {
      NeverLonger(capacity, fs[..|fs| - 1]);
    }
  }

  lemma OneMoreWrite(capacity: nat, fs: seq<Field>, prefix: seq<Field>, last: Field)
    requires fs == prefix + [last]
    ensures |Concat(fs)| == |Concat(prefix)| + |Encoded(last)|
    ensures Succeeding(capacity, fs) ==
      Succeeding(capacity, prefix) + if Fits(|WriteAll(capacity, prefix)|, capacity, last) then [last] else []
  {
    assert fs[..|fs| - 1] == prefix;
  }

  lemma KeptWithLast(kept: seq<Field>, prefix: seq<Field>, last: Field, fits: bool)
    requires |kept| <= |prefix|
    ensures kept + (if fits then [last] else []) == prefix + [last] <==> kept == prefix && fits
  {
    if kept != prefix {
      LastApart(kept, prefix, last);
    }
  }

  /** Nothing is refused exactly when everything fits together. */
  lemma {:induction false} AllSucceedIffTheyFit(capacity: nat, fs: seq<Field>)
    ensures Succeeding(capacity, fs) == fs <==> |Concat(fs)| <= capacity
    decreases |fs|
  {
    if fs != [] {
      var prefix, last := fs[..|fs| - 1], fs[|fs| - 1];
      var kept, written := Succeeding(capacity, prefix), WriteAll(capacity, prefix);
      assert fs == prefix + [last];
      NeverLonger(capacity, prefix);
      AllSucceedIffTheyFit(capacity, prefix);
      HoldsWhatSucceeded(capacity, prefix);
      OneMoreWrite(capacity, fs, prefix, last);
      KeptWithLast(kept, prefix, last, Fits(|written|, capacity, last));
    }
  }

  lemma LastApart(kept: seq<Field>, prefix: seq<Field>, last: Field)
    requires kept != prefix && |kept| <= |prefix|
    ensures kept + [last] != prefix + [last] && kept != prefix + [last]
  {
    assert (kept + [last])[..|kept|] == kept && (prefix + [last])[..|prefix|] == prefix;
  }

  // ── Records ───────────────────────────────────────────────────────────────

  datatype Imu = Imu(
    sequence: u32, timestampUs: u64, loopTimeUs: u32, pitch: i32, roll: i32, yawRate: i32, accelX: i32, accelY: i32)

  datatype Odometry = Odometry(
    sequence: u32, timestampUs: u64, loopTimeUs: u32, leftSpeed: i16, rightSpeed: i16)

  const IMU_SIZE := 36
  const ODOM_SIZE := 20

  /** What both records start with. */
  function HeadCdr(sequence: u32, timestampUs: u64, loopTimeUs: u32): (bs: seq<byte>)
    ensures |bs| == 16
  {
    Le(sequence, 4) + Le(timestampUs, 8) + Le(loopTimeUs, 4)
  }

  /** Values of `n` bytes, one after the other. */
  function Words(vs: seq<nat>, n: nat): seq<byte> {
    if vs == [] then [] else Words(vs[..|vs| - 1], n) + Le(vs[|vs| - 1], n)
  }

  function ImuWords(r: Imu): seq<u32> {
    [I32Bits(r.pitch), I32Bits(r.roll), I32Bits(r.yawRate), I32Bits(r.accelX), I32Bits(r.accelY)]
  }

  function OdometryWords(r: Odometry): seq<u16> { [I16Bits(r.leftSpeed), I16Bits(r.rightSpeed)] }

  function ImuCdr(r: Imu): (bs: seq<byte>)
    ensures |bs| == IMU_SIZE
  {
    WordsSize4(ImuWords(r));
    HeadCdr(r.sequence, r.timestampUs, r.loopTimeUs) + Words(ImuWords(r), 4)
  }

  function OdometryCdr(r: Odometry): (bs: seq<byte>)
    ensures |bs| == ODOM_SIZE
  {
    WordsSize2(OdometryWords(r));
    HeadCdr(r.sequence, r.timestampUs, r.loopTimeUs) + Words(OdometryWords(r), 2)
  }

  lemma {:induction false} WordsSize4(vs: seq<nat>)
    ensures |Words(vs, 4)| == 4 * |vs|
  {
    if vs != [] {
      WordsSize4(vs[..|vs| - 1]);
    }
  }

  lemma {:induction false} WordsSize2(vs: seq<nat>)
    ensures |Words(vs, 2)| == 2 * |vs|
  {
    if vs != [] {
      WordsSize2(vs[..|vs| - 1]);
    }
  }

  function ImuFromCdr(b: seq<byte>): Option<Imu> {
    if |b| < IMU_SIZE then None
    else Some(Imu(U32At(b, 0), U64At(b, 4), U32At(b, 12), BitsI32(U32At(b, 16)), BitsI32(U32At(b, 20)),
                  BitsI32(U32At(b, 24)), BitsI32(U32At(b, 28)), BitsI32(U32At(b, 32))))
  }

  function OdometryFromCdr(b: seq<byte>): Option<Odometry> {
    if |b| < ODOM_SIZE then None
    else Some(Odometry(U32At(b, 0), U64At(b, 4), U32At(b, 12), BitsI16(U16At(b, 16)), BitsI16(U16At(b, 18))))
  }

  /** `old` with `bytes` over it at `at`. */
  function Patched(old_: seq<byte>, at: nat, bytes: seq<byte>): (r: seq<byte>)
    requires at + |bytes| <= |old_|
    ensures |r| == |old_|
  {
    old_[..at] + bytes + old_[at + |bytes|..]
  }

  /** The three writes both records begin with. */
  method WriteHead(s: CdrSerializer, sequence: u32, timestampUs: u64, loopTimeUs: u32)
    requires s.Valid() && s.Written() == [] && s.buf.Length >= 16
    modifies s, s.buf
    ensures s.Valid() && s.Written() == HeadCdr(sequence, timestampUs, loopTimeUs)
  {
    var _ := s.Write(U32(sequence));
    var _ := s.Write(U64(timestampUs));
    var _ := s.Write(U32(loopTimeUs));
  }

  lemma OneMoreWord(head: seq<byte>, ws: seq<nat>, n: nat, k: nat)
    requires k < |ws|
    ensures head + Words(ws[..k + 1], n) == head + Words(ws[..k], n) + Le(ws[k], n)
  {
    assert ws[..k + 1][..k] == ws[..k];
  }

  /** The five writes an IMU record ends with. */
  method WriteImuWords(s: CdrSerializer, r: Imu)
    requires s.Valid() && |s.Written()| + 20 <= s.buf.Length
    modifies s, s.buf
    ensures s.Valid() && s.Written() == old(s.Written()) + Words(ImuWords(r), 4)
  {
    ghost var head := s.Written();
    var _ := s.Write(I32(r.pitch));
    var _ := s.Write(I32(r.roll));
    var _ := s.Write(I32(r.yawRate));
    var _ := s.Write(I32(r.accelX));
    var _ := s.Write(I32(r.accelY));
    FiveWords(head, ImuWords(r), 4);
  }

  lemma FiveWords(head: seq<byte>, ws: seq<nat>, n: nat)
    requires |ws| == 5
    ensures head + Words(ws, n) == head + Le(ws[0], n) + Le(ws[1], n) + Le(ws[2], n) + Le(ws[3], n) + Le(ws[4], n)
  {
    assert head + Words(ws[..0], n) == head;
    OneMoreWord(head, ws, n, 0);
    OneMoreWord(head, ws, n, 1);
    OneMoreWord(head, ws, n, 2);
    OneMoreWord(head, ws, n, 3);
    OneMoreWord(head, ws, n, 4);
    assert ws[..5] == ws;
  }

  /** `to_cdr` into `buf[at..]`: eight writes into a serializer of exactly the right size, then one copy. */
  method ImuToCdr(r: Imu, buf: array<byte>, at: nat) returns (n: nat)
    requires at <= buf.Length
    modifies buf
    ensures n == if buf.Length - at < IMU_SIZE then 0 else IMU_SIZE
    ensures buf[..] == if n == 0 then old(buf[..]) else Patched(old(buf[..]), at, ImuCdr(r))
  {
    if buf.Length - at < IMU_SIZE {
      return 0;
    }
    var s := new CdrSerializer(IMU_SIZE);
    WriteHead(s, r.sequence, r.timestampUs, r.loopTimeUs);
    WriteImuWords(s, r);
    assert s.Written() == ImuCdr(r);
    n := CopyInto(s.Written(), buf, at);
  }

  method OdometryToCdr(r: Odometry, buf: array<byte>, at: nat) returns (n: nat)
    requires at <= buf.Length
    modifies buf
    ensures n == if buf.Length - at < ODOM_SIZE then 0 else ODOM_SIZE
    ensures buf[..] == if n == 0 then old(buf[..]) else Patched(old(buf[..]), at, OdometryCdr(r))
  {
    if buf.Length - at < ODOM_SIZE {
      return 0;
    }
    ghost var ws := OdometryWords(r);
    var s := new CdrSerializer(ODOM_SIZE);
    WriteHead(s, r.sequence, r.timestampUs, r.loopTimeUs);
    ghost var head := HeadCdr(r.sequence, r.timestampUs, r.loopTimeUs);
    assert s.Written() == head + Words(ws[..0], 2);
    var _ := s.Write(I16(r.leftSpeed));
    OneMoreWord(head, ws, 2, 0);
    var _ := s.Write(I16(r.rightSpeed));
    OneMoreWord(head, ws, 2, 1);
    assert ws[..2] == ws;
    n := CopyInto(s.Written(), buf, at);
  }

  /** `buf[at..at + bytes.len()].copy_from_slice(bytes)`. */
  method CopyInto(bytes: seq<byte>, buf: array<byte>, at: nat) returns (n: nat)
    requires at + |bytes| <= buf.Length
    modifies buf
    ensures n == |bytes|
    ensures buf[..] == Patched(old(buf[..]), at, bytes)
  {
    forall k | 0 <= k < |bytes| {
      buf[at + k] := bytes[k];
    }
    n := |bytes|;
  }

  // ── Round trips ───────────────────────────────────────────────────────────

  lemma UnsignedRoundTrip(w: u32, h: u16)
    ensures I32Bits(BitsI32(w)) == w && I16Bits(BitsI16(h)) == h
  {}

  lemma HeadReads(sequence: u32, timestampUs: u64, loopTimeUs: u32, rest: seq<byte>)
    ensures
      var b := HeadCdr(sequence, timestampUs, loopTimeUs) + rest;
      U32At(b, 0) == sequence && U64At(b, 4) == timestampUs && U32At(b, 12) == loopTimeUs
  {
    PowValues();
    var b := HeadCdr(sequence, timestampUs, loopTimeUs) + rest;
    FromLeOfLe(sequence, 4);
    FromLeOfLe(timestampUs, 8);
    FromLeOfLe(loopTimeUs, 4);
    assert b[0..4] == Le(sequence, 4) && b[4..12] == Le(timestampUs, 8) && b[12..16] == Le(loopTimeUs, 4);
  }

  lemma HeadIsRead(b: seq<byte>)
    requires |b| >= 16
    ensures HeadCdr(U32At(b, 0), U64At(b, 4), U32At(b, 12)) == b[..16]
  {
    LeOfFromLe(b[0..4]);
    LeOfFromLe(b[4..12]);
    LeOfFromLe(b[12..16]);
  }

  lemma Middle4(p: seq<byte>, last: seq<byte>, at: nat)
    requires at + 4 <= |p| + |last| && |last| == 4 && (at + 4 <= |p| || at == |p|)
    ensures (p + last)[at..at + 4] == if at < |p| then p[at..at + 4] else last
  {}

  lemma {:induction false} WordSlice(vs: seq<nat>, k: nat, at: nat)
    requires k < |vs| && at == 4 * k
    ensures |Words(vs, 4)| == 4 * |vs| && Words(vs, 4)[at..at + 4] == Le(vs[k], 4)
    decreases |vs|
  {
    var n := |vs| - 1;
    var front := vs[..n];
    WordsSize4(vs);
    WordsSize4(front);
    Middle4(Words(front, 4), Le(vs[n], 4), at);
    if k < n {
      WordSlice(front, k, at);
      assert front[k] == vs[k];
    }
  }

  lemma Middle(head: seq<byte>, mid: seq<byte>, rest: seq<byte>, at: nat, n: nat)
    requires at + n <= |mid|
    ensures (head + mid + rest)[|head| + at..|head| + at + n] == mid[at..at + n]
  {}

  lemma EncodedWord(b: seq<byte>, at: nat, v: u32)
    requires at + 4 <= |b| && b[at..at + 4] == Le(v, 4)
    ensures U32At(b, at) == v
  {
    PowValues();
    FromLeOfLe(v, 4);
  }

  lemma SliceOfSlice(b: seq<byte>, mid: seq<byte>, base: nat, off: nat, at: nat)
    requires base + |mid| <= |b| && b[base..base + |mid|] == mid && off + 4 <= |mid| && at == base + off
    ensures b[at..at + 4] == mid[off..off + 4]
  {
    var got, want := b[at..at + 4], mid[off..off + 4];
    forall i | 0 <= i < 4 ensures got[i] == want[i] {
      assert mid[off + i] == b[base..base + |mid|][off + i] == b[base + (off + i)];
    }
    assert got == want;
  }

  /** The word at index `k` is read back at its offset, whatever surrounds the words. */
  lemma Words4Read(b: seq<byte>, mid: seq<byte>, base: nat, vs: seq<u32>, k: nat, off: nat, at: nat)
    requires k < |vs| && mid == Words(vs, 4) && off == 4 * k && at == base + off
    requires base + |mid| <= |b| && b[base..base + |mid|] == mid
    ensures at + 4 <= |b| && U32At(b, at) == vs[k]
  {
    WordSlice(vs, k, off);
    SliceOfSlice(b, mid, base, off, at);
    EncodedWord(b, at, vs[k]);
  }

  lemma EncodedHalf(b: seq<byte>, at: nat, v: u16)
    requires at + 2 <= |b| && b[at..at + 2] == Le(v, 2)
    ensures U16At(b, at) == v
  {
    PowValues();
    FromLeOfLe(v, 2);
  }

  lemma Words2Read(head: seq<byte>, vs: seq<u16>, rest: seq<byte>)
    requires |vs| == 2
    ensures |Words(vs, 2)| == 4
    ensures
      var b := head + Words(vs, 2) + rest;
      U16At(b, |head|) == vs[0] && U16At(b, |head| + 2) == vs[1]
  {
    TwoWords(vs);
    var b := head + Words(vs, 2) + rest;
    Middle(head, Words(vs, 2), rest, 0, 2);
    Middle(head, Words(vs, 2), rest, 2, 2);
    assert Words(vs, 2)[0..2] == Le(vs[0], 2) && Words(vs, 2)[2..4] == Le(vs[1], 2);
    EncodedHalf(b, |head|, vs[0]);
    EncodedHalf(b, |head| + 2, vs[1]);
  }

  lemma TwoWords(ws: seq<nat>)
    requires |ws| == 2
    ensures Words(ws, 2) == Le(ws[0], 2) + Le(ws[1], 2)
  {
    assert ws[..1][..0] == [];
    assert Words(ws[..1], 2) == [] + Le(ws[0], 2);
  }

  lemma ImuRoundTrip(r: Imu, extra: seq<byte>)
    ensures ImuFromCdr(ImuCdr(r) + extra) == Some(r)
  {
    var head, ws := HeadCdr(r.sequence, r.timestampUs, r.loopTimeUs), ImuWords(r);
    HeadReads(r.sequence, r.timestampUs, r.loopTimeUs, Words(ws, 4) + extra);
    assert ImuCdr(r) + extra == head + (Words(ws, 4) + extra);
    var b, mid := ImuCdr(r) + extra, Words(ws, 4);
    assert b[16..16 + |mid|] == mid;
    Words4Read(b, mid, 16, ws, 0, 0, 16);
    Words4Read(b, mid, 16, ws, 1, 4, 20);
    Words4Read(b, mid, 16, ws, 2, 8, 24);
    Words4Read(b, mid, 16, ws, 3, 12, 28);
    Words4Read(b, mid, 16, ws, 4, 16, 32);
  }

  lemma OdometryRoundTrip(r: Odometry, extra: seq<byte>)
    ensures OdometryFromCdr(OdometryCdr(r) + extra) == Some(r)
  {
    var head, ws := HeadCdr(r.sequence, r.timestampUs, r.loopTimeUs), OdometryWords(r);
    HeadReads(r.sequence, r.timestampUs, r.loopTimeUs, Words(ws, 2) + extra);
    assert OdometryCdr(r) + extra == head + (Words(ws, 2) + extra);
    Words2Read(head, ws, extra);
  }

  lemma JoinSlices(b: seq<byte>, from: nat, mid: nat, end: nat)
    requires from <= mid <= end <= |b|
    ensures b[from..mid] + b[mid..end] == b[from..end]
  {}

  /** Bytes are the words read from them. */
  lemma {:induction false} BytesAreWords4(b: seq<byte>, at: nat, vs: seq<u32>)
    requires at + 4 * |vs| <= |b| && forall k :: 0 <= k < |vs| ==> vs[k] == U32At(b, at + 4 * k)
    ensures Words(vs, 4) == b[at..at + 4 * |vs|]
  {
    if vs != [] {
      var n := |vs| - 1;
      var last := at + 4 * n;
      BytesAreWords4(b, at, vs[..n]);
      assert vs[n] == U32At(b, last);
      LeOfFromLe(b[last..last + 4]);
      JoinSlices(b, at, last, last + 4);
    }
  }

  /** Every 36 bytes are the encoding of the record they decode to. */
  lemma ImuBytesRoundTrip(b: seq<byte>)
    requires |b| == IMU_SIZE
    ensures ImuFromCdr(b).Some? && ImuCdr(ImuFromCdr(b).value) == b
  {
    var r := ImuFromCdr(b).value;
    HeadIsRead(b);
    UnsignedRoundTrip(U32At(b, 16), 0);
    UnsignedRoundTrip(U32At(b, 20), 0);
    UnsignedRoundTrip(U32At(b, 24), 0);
    UnsignedRoundTrip(U32At(b, 28), 0);
    UnsignedRoundTrip(U32At(b, 32), 0);
    BytesAreWords4(b, 16, ImuWords(r));
    assert b == b[..16] + b[16..36];
  }

  lemma BytesAreTwoWords(b: seq<byte>, at: nat, ws: seq<u16>)
    requires at + 4 <= |b| && |ws| == 2 && ws[0] == U16At(b, at) && ws[1] == U16At(b, at + 2)
    ensures Words(ws, 2) == b[at..at + 4]
  {
    TwoWords(ws);
    LeOfFromLe(b[at..at + 2]);
    LeOfFromLe(b[at + 2..at + 4]);
    assert b[at..at + 4] == b[at..at + 2] + b[at + 2..at + 4];
  }

  lemma OdometryBytesRoundTrip(b: seq<byte>)
    requires |b| == ODOM_SIZE
    ensures OdometryFromCdr(b).Some? && OdometryCdr(OdometryFromCdr(b).value) == b
  {
    HeadIsRead(b);
    UnsignedRoundTrip(0, U16At(b, 16));
    UnsignedRoundTrip(0, U16At(b, 18));
    BytesAreTwoWords(b, 16, OdometryWords(OdometryFromCdr(b).value));
    assert b == b[..16] + b[16..20];
  }

  // ── Where each field is ───────────────────────────────────────────────────

  /** Both records begin with the sequence number, the time stamp and the loop time. */
  ghost predicate HeadAt(b: seq<byte>, sequence: u32, timestampUs: u64, loopTimeUs: u32)
    requires |b| >= 16
  {
    Number32(b, 0) == sequence && Number64(b, 4) == timestampUs && Number32(b, 12) == loopTimeUs
  }

  lemma HeadNumbers(b: seq<byte>)
    requires |b| >= 16
    ensures HeadAt(b, U32At(b, 0), U64At(b, 4), U32At(b, 12))
  {
    U32Bytes(b, 0);
    U64Bytes(b, 4);
    U32Bytes(b, 12);
  }

  /** Signed fields are two's complement. */
  lemma SignedNumbers(w: u32, h: u16)
    ensures BitsI32(w) % 0x1_0000_0000 == w && BitsI16(h) % 0x1_0000 == h
  {}

  ghost predicate ImuAt(b: seq<byte>, r: Imu)
    requires |b| >= 36
  {
    && HeadAt(b, r.sequence, r.timestampUs, r.loopTimeUs)
    && Number32(b, 16) == r.pitch % 0x1_0000_0000 && Number32(b, 20) == r.roll % 0x1_0000_0000
    && Number32(b, 24) == r.yawRate % 0x1_0000_0000
    && Number32(b, 28) == r.accelX % 0x1_0000_0000 && Number32(b, 32) == r.accelY % 0x1_0000_0000
  }

  ghost predicate OdometryAt(b: seq<byte>, r: Odometry)
    requires |b| >= 20
  {
    && HeadAt(b, r.sequence, r.timestampUs, r.loopTimeUs)
    && Number16(b, 16) == r.leftSpeed % 0x1_0000 && Number16(b, 18) == r.rightSpeed % 0x1_0000
  }

  lemma ImuNumbers(b: seq<byte>)
    requires |b| >= 36
    ensures ImuFromCdr(b).Some? && ImuAt(b, ImuFromCdr(b).value)
  {
    HeadNumbers(b);
    U32Bytes(b, 16);
    U32Bytes(b, 20);
    U32Bytes(b, 24);
    U32Bytes(b, 28);
    U32Bytes(b, 32);
    SignedNumbers(U32At(b, 16), 0);
    SignedNumbers(U32At(b, 20), 0);
    SignedNumbers(U32At(b, 24), 0);
    SignedNumbers(U32At(b, 28), 0);
    SignedNumbers(U32At(b, 32), 0);
  }

  lemma OdometryNumbers(b: seq<byte>)
    requires |b| >= 20
    ensures OdometryFromCdr(b).Some? && OdometryAt(b, OdometryFromCdr(b).value)
  {
    HeadNumbers(b);
    U16Bytes(b, 16);
    U16Bytes(b, 18);
    SignedNumbers(0, U16At(b, 16));
    SignedNumbers(0, U16At(b, 18));
  }

  /** Every field of a record is at its offset, least significant byte first. */
  lemma RecordLayout(imu: Imu, odom: Odometry)
    ensures |ImuCdr(imu)| == 36 && ImuAt(ImuCdr(imu), imu)
    ensures |OdometryCdr(odom)| == 20 && OdometryAt(OdometryCdr(odom), odom)
  {
    ImuRoundTrip(imu, []);
    OdometryRoundTrip(odom, []);
    assert ImuCdr(imu) + [] == ImuCdr(imu) && OdometryCdr(odom) + [] == OdometryCdr(odom);
    ImuNumbers(ImuCdr(imu));
    OdometryNumbers(OdometryCdr(odom));
  }

  /** A patch changes exactly the bytes it covers. */
  lemma PatchedByte(before: seq<byte>, at: nat, bytes: seq<byte>, i: nat)
    requires at + |bytes| <= |before| && i < |before|
    ensures Patched(before, at, bytes)[i] == if at <= i < at + |bytes| then bytes[i - at] else before[i]
  {}

  lemma PatchedNumber(before: seq<byte>, at: nat, v: u32)
    requires at + 4 <= |before|
    ensures Number32(Patched(before, at, Le(v, 4)), at) == v
  {
    var after := Patched(before, at, Le(v, 4));
    assert after[at..at + 4] == Le(v, 4);
    PowValues();
    FromLeOfLe(v, 4);
    U32Bytes(after, at);
  }

  lemma NumberKept(before: seq<byte>, at: nat, bytes: seq<byte>, other: nat)
    requires at + |bytes| <= |before| && other + 4 <= |before| && (other + 4 <= at || at + |bytes| <= other)
    ensures Number32(Patched(before, at, bytes), other) == Number32(before, other)
  {
    var after := Patched(before, at, bytes);
    assert forall k :: other <= k < other + 4 ==> after[k] == before[k];
  }

  // ── The tagged packet ─────────────────────────────────────────────────────

  const TYPE_IMU: byte := 0x30
  const TYPE_ODOMETRY: byte := 0x31

  datatype Packet = ImuPacket(imu: Imu) | OdometryPacket(odom: Odometry)

  function TypeOf(p: Packet): byte { if p.ImuPacket? then TYPE_IMU else TYPE_ODOMETRY }

  function PacketCdr(p: Packet): (bs: seq<byte>)
    ensures |bs| == if p.ImuPacket? then IMU_SIZE else ODOM_SIZE
  {
    match p
    case ImuPacket(imu) => ImuCdr(imu)
    case OdometryPacket(odom) => OdometryCdr(odom)
  }

  function Deserialize(b: seq<byte>): Option<Packet> {
    if b == [] then None
    else if b[0] == TYPE_IMU then
      match ImuFromCdr(b[1..]) { case Some(imu) => Some(ImuPacket(imu)) case None => None }
    else if b[0] == TYPE_ODOMETRY then
      match OdometryFromCdr(b[1..]) { case Some(odom) => Some(OdometryPacket(odom)) case None => None }
    else None
  }

  /** What decodes: a known type byte and at least as much as its record needs. */
  lemma DecodesExactly(b: seq<byte>)
    ensures Deserialize(b).Some? <==> |b| > 0 && ((b[0] == 0x30 && |b| >= 37) || (b[0] == 0x31 && |b| >= 21))
    ensures Deserialize(b).Some? ==> (Deserialize(b).value.ImuPacket? <==> b[0] == 0x30)
  {}

  /** `serialize` into `buf[at..]`. */
  method Serialize(p: Packet, buf: array<byte>, at: nat) returns (n: nat)
    requires at <= buf.Length
    modifies buf
    ensures n == if buf.Length - at < 1 + |PacketCdr(p)| then 0 else 1 + |PacketCdr(p)|
    ensures buf[..] == if n == 0 then old(buf[..]) else Patched(old(buf[..]), at, [TypeOf(p)] + PacketCdr(p))
  {
    if buf.Length - at < 1 + |PacketCdr(p)| {
      return 0;
    }
    buf[at] := TypeOf(p);
    ghost var tagged := buf[..];
    match p {
      case ImuPacket(imu) => n := ImuToCdr(imu, buf, at + 1);
      case OdometryPacket(odom) => n := OdometryToCdr(odom, buf, at + 1);
    }
    n := n + 1;
    PatchedTwice(old(buf[..]), tagged, at, TypeOf(p), PacketCdr(p));
  }

  lemma PatchedTwice(before: seq<byte>, tagged: seq<byte>, at: nat, tag: byte, bytes: seq<byte>)
    requires at + 1 + |bytes| <= |before| && tagged == before[at := tag]
    ensures Patched(tagged, at + 1, bytes) == Patched(before, at, [tag] + bytes)
  {}

  /** Whatever is appended, a serialised packet decodes to itself. */
  lemma PacketRoundTrip(p: Packet, extra: seq<byte>)
    ensures Deserialize([TypeOf(p)] + PacketCdr(p) + extra) == Some(p)
  {
    var body := PacketCdr(p) + extra;
    assert [TypeOf(p)] + PacketCdr(p) + extra == [TypeOf(p)] + body;
    TaggedBody(TypeOf(p), body);
    match p
    case ImuPacket(imu) => ImuRoundTrip(imu, extra);
    case OdometryPacket(odom) => OdometryRoundTrip(odom, extra);
  }

  lemma TaggedBody(tag: byte, body: seq<byte>)
    ensures ([tag] + body)[0] == tag && ([tag] + body)[1..] == body
  {}
}
