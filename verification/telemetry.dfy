/**
 * Telemetry from its producers to the radio: the guest's own encoder (wasm-apps/src/lib.rs), the frame
 * that is transmitted (firmware/src/core0/espnow.rs), and the lossy 32-slot channel between Core 1 and
 * the radio task (firmware/src/telemetry.rs, firmware/src/core1/mod.rs).
 */
module Telemetry {
  import opened Wrappers
  import opened Bytes
  import opened Codec
  import opened EspNow

  // ── The transmitted frame ─────────────────────────────────────────────────

  /** Header and body as they go on the air. */
  function FrameBytes(p: Packet): seq<byte> {
    [MAGIC0, MAGIC1, TypeOf(p), 1 + |PacketCdr(p)|] + PacketCdr(p)
  }

  /** `send_telemetry_packet` up to the transmission, with the in-place shift over the duplicate type byte. */
  method BuildFrame(p: Packet) returns (frame: array<byte>, total: nat)
    ensures fresh(frame) && total <= frame.Length == ESPNOW_MAX_PAYLOAD
    ensures frame[..total] == FrameBytes(p)
  {
    frame := new byte[ESPNOW_MAX_PAYLOAD](_ => 0);
    frame[0] := MAGIC0;
    frame[1] := MAGIC1;
    ghost var before := frame[..];
    var payloadLen := Serialize(p, frame, 4);
    PatchedParts(before, 4, [TypeOf(p)] + PacketCdr(p));
    ghost var written := frame[..];
    assert written[4] == written[4..4 + payloadLen][0];
    frame[2] := frame[4];
    frame[3] := payloadLen;
    var bodyLen := payloadLen - 1;
    ShiftDown(frame, 4, bodyLen);
    total := 4 + bodyLen;
    assert frame[0] == before[..4][0] && frame[1] == before[..4][1];
    ShiftedIsFrame(written, frame[..], p);
  }

  /** The copy of `n` bytes to one place further down, over their own front. */
  method ShiftDown(frame: array<byte>, at: nat, n: nat)
    requires at + n < frame.Length
    modifies frame
    ensures forall i :: 0 <= i < frame.Length ==>
      frame[i] == if at <= i < at + n then old(frame[i + 1]) else old(frame[i])
  {
    forall i | at <= i < at + n {
      frame[i] := frame[i + 1];
    }
  }

  lemma ShiftedIsFrame(written: seq<byte>, shifted: seq<byte>, p: Packet)
    requires |written| == |shifted| >= 5 + |PacketCdr(p)|
    requires written[4..5 + |PacketCdr(p)|] == [TypeOf(p)] + PacketCdr(p)
    requires shifted[0] == MAGIC0 && shifted[1] == MAGIC1 && shifted[2] == TypeOf(p) && shifted[3] == 1 + |PacketCdr(p)|
    requires forall i :: 4 <= i < 4 + |PacketCdr(p)| ==> shifted[i] == written[i + 1]
    ensures shifted[..4 + |PacketCdr(p)|] == FrameBytes(p)
  {
    var body := PacketCdr(p);
    var n := 4 + |body|;
    forall i | 4 <= i < n
      ensures shifted[i] == body[i - 4]
    {
      assert written[i + 1] == written[4..5 + |body|][i - 3] == ([TypeOf(p)] + body)[i - 3];
    }
    var frame := shifted[..n];
    assert frame[4..] == body;
    assert frame == frame[..4] + frame[4..];
  }

  lemma PatchedParts(before: seq<byte>, at: nat, bytes: seq<byte>)
    requires at + |bytes| <= |before|
    ensures
      var after := Patched(before, at, bytes);
      && after[..at] == before[..at]
      && after[at..at + |bytes|] == bytes
      && after[at + |bytes|..] == before[at + |bytes|..]
  {}

  /** The header in its bytes: magic, type, and a length one above that of the record that follows. */
  lemma FrameLayout(p: Packet)
    ensures p.ImuPacket? ==> FrameBytes(p) == [0x5A, 0x4E, 0x30, 37] + ImuCdr(p.imu)
    ensures p.OdometryPacket? ==> FrameBytes(p) == [0x5A, 0x4E, 0x31, 21] + OdometryCdr(p.odom)
  {}

  /** The receiver can decode the body by the type byte in the header. */
  lemma FrameDecodes(p: Packet)
    ensures Deserialize([FrameBytes(p)[2]] + FrameBytes(p)[4..]) == Some(p)
  {
    assert FrameBytes(p)[4..] == PacketCdr(p);
    PacketRoundTrip(p, []);
    assert [TypeOf(p)] + PacketCdr(p) + [] == [TypeOf(p)] + PacketCdr(p);
  }

  /** The length byte is one too large: the protocol's own frame handler refuses every such frame. */
  lemma OwnFrameIsRefused(r: Radio, p: Packet, now: u64)
    requires ValidRadio(r)
    ensures Handle(r, FrameBytes(p), now) == r
  {}

  /** With the byte one less, the handler would read exactly the body. */
  lemma LengthByteIsOneTooLarge(p: Packet)
    ensures var fixed := FrameBytes(p)[3 := |PacketCdr(p)|]; FrameValid(fixed) && Body(fixed) == PacketCdr(p)
  {}

  // ── The guest's encoder ───────────────────────────────────────────────────

  const NOMINAL_LOOP_TIME_US: u32 := 2000
  const QUEUE_HIGH_WATER_MARK := 28

  function GuestTimestamp(uptimeMs: u64): u64 { uptimeMs * 1000 % 0x1_0000_0000_0000_0000 }

  function GuestImu(sequence: u32, uptimeMs: u64, pitch: i32, roll: i32): Imu {
    Imu(sequence, GuestTimestamp(uptimeMs), NOMINAL_LOOP_TIME_US, pitch, roll, 0, 0, 0)
  }

  function GuestOdometry(sequence: u32, uptimeMs: u64): Odometry {
    Odometry(sequence, GuestTimestamp(uptimeMs), NOMINAL_LOOP_TIME_US, 0, 0)
  }

  function Successor(sequence: u32): u32 { (sequence + 1) % 0x1_0000_0000 }

  /** The guest's IMU record, byte by byte: its number, the uptime in microseconds, and the readings. */
  ghost predicate CarriesImu(b: seq<byte>, sequence: u32, uptimeMs: u64, pitch: i32, roll: i32) {
    && |b| == 36
    && HeadAt(b, sequence, uptimeMs * 1000 % 0x1_0000_0000_0000_0000, 2000)
    && Number32(b, 16) == pitch % 0x1_0000_0000 && Number32(b, 20) == roll % 0x1_0000_0000
    && Number32(b, 24) == Number32(b, 28) == Number32(b, 32) == 0
  }

  /** Its odometry record: both speeds are zero. */
  ghost predicate CarriesOdometry(b: seq<byte>, sequence: u32, uptimeMs: u64) {
    && |b| == 20
    && HeadAt(b, sequence, uptimeMs * 1000 % 0x1_0000_0000_0000_0000, 2000)
    && Number16(b, 16) == Number16(b, 18) == 0
  }

  lemma GuestRecordsCarry(sequence: u32, uptimeMs: u64, pitch: i32, roll: i32)
    ensures CarriesImu(ImuCdr(GuestImu(sequence, uptimeMs, pitch, roll)), sequence, uptimeMs, pitch, roll)
    ensures CarriesOdometry(OdometryCdr(GuestOdometry(sequence, uptimeMs)), sequence, uptimeMs)
  {
    RecordLayout(GuestImu(sequence, uptimeMs, pitch, roll), GuestOdometry(sequence, uptimeMs));
  }

  method WriteLe(buf: array<byte>, offset: nat, v: nat, n: nat)
    requires offset + n <= buf.Length
    modifies buf
    ensures buf[..] == Patched(old(buf[..]), offset, Le(v, n))
  {
    var _ := CopyInto(Le(v, n), buf, offset);
  }

  /** The three writes both handlers begin with. */
  method WriteHeadAt(buf: array<byte>, sequence: u32, uptimeUs: u64)
    requires buf.Length >= 16
    modifies buf
    ensures buf[..] == HeadCdr(sequence, uptimeUs, NOMINAL_LOOP_TIME_US) + old(buf[16..])
  {
    WriteLe(buf, 0, sequence, 4);
    WriteLe(buf, 4, uptimeUs, 8);
    WriteLe(buf, 12, NOMINAL_LOOP_TIME_US, 4);
  }

  class GuestTelemetry {
    var imuSeq: u32
    var odomSeq: u32

    constructor ()
      ensures imuSeq == odomSeq == 0
    {
      imuSeq, odomSeq := 0, 0;
    }

    /**
     * The payload handed to the host, none if the IMU call failed or the queue is at the high-water mark; and
     * what the handler returns, given the host's answer to the payload.
     */
    method EmitImu(imuStatus: i32, queueLen: int, uptimeMs: u64, pitch: i32, roll: i32, answer: i32)
      returns (payload: Option<seq<byte>>, code: i32)
      modifies this
      ensures odomSeq == old(odomSeq)
      ensures imuStatus != 0 || queueLen >= QUEUE_HIGH_WATER_MARK ==> payload == None && imuSeq == old(imuSeq)
      ensures imuStatus == 0 && queueLen < QUEUE_HIGH_WATER_MARK ==>
        payload == Some(ImuCdr(GuestImu(old(imuSeq), uptimeMs, pitch, roll))) && imuSeq == Successor(old(imuSeq))
      ensures payload.Some? <==> imuStatus == 0 && queueLen < 28
      ensures payload.Some? ==> CarriesImu(payload.value, old(imuSeq), uptimeMs, pitch, roll)
      ensures imuSeq == if payload.Some? then (old(imuSeq) + 1) % 0x1_0000_0000 else old(imuSeq)
      ensures code == if imuStatus != 0 then imuStatus else if payload == None then 0 else answer
    {
      if imuStatus != 0 {
        return None, imuStatus;
      }
      if queueLen >= QUEUE_HIGH_WATER_MARK {
        return None, 0;
      }
      var uptimeUs := GuestTimestamp(uptimeMs);
      var sequence := imuSeq;
      imuSeq := Successor(imuSeq);
      var buf := new byte[IMU_SIZE](_ => 0);
      WriteHeadAt(buf, sequence, uptimeUs);
      ghost var start := buf[..];
      WriteLe(buf, 16, I32Bits(pitch), 4);
      WriteLe(buf, 20, I32Bits(roll), 4);
      GuestImuTail(start, sequence, uptimeMs, pitch, roll);
      GuestRecordsCarry(sequence, uptimeMs, pitch, roll);
      payload, code := Some(buf[..]), answer;
    }

    method EmitOdometry(queueLen: int, uptimeMs: u64, answer: i32) returns (payload: Option<seq<byte>>, code: i32)
      modifies this
      ensures imuSeq == old(imuSeq)
      ensures queueLen >= QUEUE_HIGH_WATER_MARK ==> payload == None && odomSeq == old(odomSeq)
      ensures queueLen < QUEUE_HIGH_WATER_MARK ==>
        payload == Some(OdometryCdr(GuestOdometry(old(odomSeq), uptimeMs))) && odomSeq == Successor(old(odomSeq))
      ensures payload.Some? <==> queueLen < 28
      ensures payload.Some? ==> CarriesOdometry(payload.value, old(odomSeq), uptimeMs)
      ensures odomSeq == if payload.Some? then (old(odomSeq) + 1) % 0x1_0000_0000 else old(odomSeq)
      ensures code == if payload == None then 0 else answer
    {
      if queueLen >= QUEUE_HIGH_WATER_MARK {
        return None, 0;
      }
      var uptimeUs := GuestTimestamp(uptimeMs);
      var sequence := odomSeq;
      odomSeq := Successor(odomSeq);
      var buf := new byte[ODOM_SIZE](_ => 0);
      WriteHeadAt(buf, sequence, uptimeUs);
      ghost var head := buf[..16];
      WriteLe(buf, 16, I16Bits(0), 2);
      WriteLe(buf, 18, I16Bits(0), 2);
      TwoWords(OdometryWords(GuestOdometry(sequence, uptimeMs)));
      assert buf[..] == head + (Le(0, 2) + Le(0, 2));
      GuestRecordsCarry(sequence, uptimeMs, 0, 0);
      payload, code := Some(buf[..]), answer;
    }
  }

  lemma ZeroWord()
    ensures Le(0, 4) == [0, 0, 0, 0]
  {}

  lemma GuestImuTail(start: seq<byte>, sequence: u32, uptimeMs: u64, pitch: i32, roll: i32)
    requires |start| == IMU_SIZE && forall i :: 16 <= i < 36 ==> start[i] == 0
    requires start[..16] == HeadCdr(sequence, GuestTimestamp(uptimeMs), NOMINAL_LOOP_TIME_US)
    ensures Patched(Patched(start, 16, Le(I32Bits(pitch), 4)), 20, Le(I32Bits(roll), 4))
         == ImuCdr(GuestImu(sequence, uptimeMs, pitch, roll))
  {
    var ws, head := ImuWords(GuestImu(sequence, uptimeMs, pitch, roll)), start[..16];
    var b := Patched(Patched(start, 16, Le(ws[0], 4)), 20, Le(ws[1], 4));
    TwoPatches(start, Le(ws[0], 4), Le(ws[1], 4));
    ZeroWord();
    ZeroTail(start[24..], Le(0, 4));
    FiveWords(head, ws, 4);
    assert b == head + Le(ws[0], 4) + Le(ws[1], 4) + (Le(0, 4) + Le(0, 4) + Le(0, 4));
  }

  lemma TwoPatches(start: seq<byte>, v: seq<byte>, w: seq<byte>)
    requires |start| == IMU_SIZE && |v| == |w| == 4
    ensures Patched(Patched(start, 16, v), 20, w) == start[..16] + v + w + start[24..]
  {
    var once := Patched(start, 16, v);
    assert once[..20] == start[..16] + v && once[24..] == start[24..];
  }

  lemma ZeroTail(tail: seq<byte>, word: seq<byte>)
    requires |tail| == 12 && word == [0, 0, 0, 0] && forall i :: 0 <= i < 12 ==> tail[i] == 0
    ensures tail == word + word + word
  {}

  // ── The host's side of the guest call ─────────────────────────────────────

  /** What `emit_imu_telemetry` puts in the channel for some bytes; none when it refuses them. */
  function DecodedImu(bytes: seq<byte>): Option<Packet> {
    if |bytes| != IMU_SIZE then None
    else match ImuFromCdr(bytes) { case Some(imu) => Some(ImuPacket(imu)) case None => None }
  }

  function DecodedOdometry(bytes: seq<byte>): Option<Packet> {
    if |bytes| != ODOM_SIZE then None
    else match OdometryFromCdr(bytes) { case Some(odom) => Some(OdometryPacket(odom)) case None => None }
  }

  /** The host decodes every record it is handed, and what it transmits for one carries the guest's bytes. */
  lemma GuestBytesReachTheAir(bytes: seq<byte>)
    ensures DecodedImu(bytes).Some? <==> |bytes| == 36
    ensures DecodedOdometry(bytes).Some? <==> |bytes| == 20
    ensures |bytes| == IMU_SIZE ==> DecodedImu(bytes).Some? && FrameBytes(DecodedImu(bytes).value)[4..] == bytes
    ensures |bytes| == ODOM_SIZE ==>
      DecodedOdometry(bytes).Some? && FrameBytes(DecodedOdometry(bytes).value)[4..] == bytes
  {
    if |bytes| == IMU_SIZE {
      ImuBytesRoundTrip(bytes);
      assert FrameBytes(DecodedImu(bytes).value)[4..] == ImuCdr(ImuFromCdr(bytes).value);
    }
    if |bytes| == ODOM_SIZE {
      OdometryBytesRoundTrip(bytes);
      assert FrameBytes(DecodedOdometry(bytes).value)[4..] == OdometryCdr(OdometryFromCdr(bytes).value);
    }
  }

  /** What the guest's encoder builds is decoded by the host to the record it meant. */
  lemma HostDecodesGuest(imu: Imu, odom: Odometry)
    ensures DecodedImu(ImuCdr(imu)) == Some(ImuPacket(imu))
    ensures DecodedOdometry(OdometryCdr(odom)) == Some(OdometryPacket(odom))
  {
    ImuRoundTrip(imu, []);
    OdometryRoundTrip(odom, []);
    assert ImuCdr(imu) + [] == ImuCdr(imu) && OdometryCdr(odom) + [] == OdometryCdr(odom);
  }
}
