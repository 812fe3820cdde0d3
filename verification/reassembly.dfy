/**
 * What a transfer delivers: reassembly of a binary from its slices in any order, what the byte counter
 * means, and which damage the final checksum is sure to catch.
 */
module Reassembly {
  import opened Wrappers
  import opened Bytes
  import opened BitWords
  import opened Crc
  import opened Ota
  import opened EspNow

  // ── Frames ────────────────────────────────────────────────────────────────

  const CHUNK_MAX := MAX_BODY - 4

  /** A SandOS frame: magic, command, length, body. */
  function FrameOf(id: byte, body: seq<byte>): seq<byte>
    requires |body| <= MAX_BODY
  {
    [MAGIC0, MAGIC1, id, |body|] + body
  }

  lemma FrameIsRead(id: byte, body: seq<byte>)
    requires |body| <= MAX_BODY
    ensures FrameValid(FrameOf(id, body)) && FrameOf(id, body)[2] == id && Body(FrameOf(id, body)) == body
  {}

  function BeginFrame(b: seq<byte>): seq<byte> { FrameOf(OTA_BEGIN, Le(|b|, 4)) }

  function ChunkFrame(w: Write): seq<byte>
    requires |w.data| <= CHUNK_MAX
  {
    FrameOf(OTA_CHUNK, Le(w.offset, 4) + w.data)
  }

  function FinalizeFrame(b: seq<byte>): seq<byte> { FrameOf(OTA_FINALIZE, Le(Crc32(b), 4)) }

  /** The frames received one after the other, each at its time. */
  function HandleAll(r: Radio, frames: seq<seq<byte>>, at: seq<u64>): (s: Radio)
    requires ValidRadio(r) && |at| == |frames|
    ensures ValidRadio(s)
    decreases |frames|
  {
    if frames == [] then r else HandleAll(Handle(r, frames[0], at[0]), frames[1..], at[1..])
  }

  // ── Reassembly in any order ───────────────────────────────────────────────

  /** `w` is a slice of `b` that fits one frame. */
  predicate TrueSlice(b: seq<byte>, w: Write) {
    0 < |w.data| <= CHUNK_MAX && w.offset + |w.data| <= |b| && w.data == b[w.offset..w.offset + |w.data|]
  }

  predicate Framable(ws: seq<Write>) { forall k :: 0 <= k < |ws| ==> |ws[k].data| <= CHUNK_MAX }

  predicate TrueSlices(b: seq<byte>, ws: seq<Write>)
    ensures TrueSlices(b, ws) ==> Framable(ws)
  {
    forall k :: 0 <= k < |ws| ==> TrueSlice(b, ws[k])
  }

  ghost predicate Covered(ws: seq<Write>, i: nat) { exists k :: 0 <= k < |ws| && Covers(ws[k], i) }

  /** Receiving `b`: every byte is right, or is still zero and outside `ws`. */
  ghost predicate Partial(o: OtaFields, b: seq<byte>, ws: seq<Write>) {
    && o.state == Receiving && |o.buffer| == |b|
    && forall i :: 0 <= i < |b| ==> o.buffer[i] == if Covered(ws, i) then b[i] else 0
  }

  lemma ChunkStep(o: OtaFields, b: seq<byte>, ws: seq<Write>, w: Write)
    requires Valid(o) && Partial(o, b, ws) && TrueSlice(b, w)
    ensures Partial(Chunk(o, Le(w.offset, 4) + w.data), b, ws + [w])
  {
    var payload := Le(w.offset, 4) + w.data;
    U32RoundTrip(w.offset, w.data);
    assert payload[4..] == w.data && ChunkAccepted(o, payload);
    var o' := Chunk(o, payload);
    forall i | 0 <= i < |b|
      ensures o'.buffer[i] == if Covered(ws + [w], i) then b[i] else 0
    {
      CoveredLast(ws, w, i);
    }
  }

  lemma CoveredLast(ws: seq<Write>, w: Write, i: nat)
    ensures Covered(ws + [w], i) == (Covered(ws, i) || Covers(w, i))
  {
    var all := ws + [w];
    if Covered(ws, i) {
      var k :| 0 <= k < |ws| && Covers(ws[k], i);
      assert all[k] == ws[k];
    }
    assert all[|ws|] == w;
    if Covered(all, i) {
      var k :| 0 <= k < |all| && Covers(all[k], i);
      assert k < |ws| ==> ws[k] == all[k];
    }
  }

  function ChunkFrames(ws: seq<Write>): (fs: seq<seq<byte>>)
    requires Framable(ws)
    ensures |fs| == |ws|
  {
    if ws == [] then [] else ChunkFrames(ws[..|ws| - 1]) + [ChunkFrame(ws[|ws| - 1])]
  }

  lemma {:induction false} HandleAllConcat(r: Radio, f: seq<seq<byte>>, g: seq<seq<byte>>, at: seq<u64>)
    requires ValidRadio(r) && |at| == |f| + |g|
    ensures HandleAll(r, f + g, at) == HandleAll(HandleAll(r, f, at[..|f|]), g, at[|f|..])
    decreases |f|
  {
    if f == [] {
      assert f + g == g && at[|f|..] == at;
    } else {
      assert (f + g)[1..] == f[1..] + g;
      assert at[..|f|][1..] == at[1..][..|f| - 1] && at[1..][|f| - 1..] == at[|f|..];
      HandleAllConcat(Handle(r, f[0], at[0]), f[1..], g, at[1..]);
    }
  }

  lemma HandleOne(r: Radio, f: seq<byte>, at: seq<u64>)
    requires ValidRadio(r) && |at| == 1
    ensures HandleAll(r, [f], at) == Handle(r, f, at[0])
  {}

  lemma {:induction false} ChunksAccumulate(r: Radio, b: seq<byte>, ws: seq<Write>, at: seq<u64>)
    requires ValidRadio(r) && Partial(r.ota, b, []) && |at| == |ws|
    requires TrueSlices(b, ws)
    ensures Partial(HandleAll(r, ChunkFrames(ws), at).ota, b, ws)
    decreases |ws|
  {
    if ws != [] {
      var n := |ws| - 1;
      var w := ws[n];
      ChunksAccumulate(r, b, ws[..n], at[..n]);
      HandleAllConcat(r, ChunkFrames(ws[..n]), [ChunkFrame(w)], at);
      var s := HandleAll(r, ChunkFrames(ws[..n]), at[..n]);
      HandleOne(s, ChunkFrame(w), at[n..]);
      FrameIsRead(OTA_CHUNK, Le(w.offset, 4) + w.data);
      ChunkStep(s.ota, b, ws[..n], w);
      assert ws == ws[..n] + [w];
    }
  }

  lemma BeginStep(r: Radio, b: seq<byte>, at: u64)
    requires ValidRadio(r) && 0 < |b| <= MAX_BINARY_SIZE
    ensures Partial(Handle(r, BeginFrame(b), at).ota, b, [])
  {
    FrameIsRead(OTA_BEGIN, Le(|b|, 4));
    U32RoundTrip(|b|, []);
    assert Le(|b|, 4) + [] == Le(|b|, 4);
  }

  lemma FinalizeStep(r: Radio, b: seq<byte>, at: u64)
    requires ValidRadio(r) && r.ota.state == Receiving
    ensures
      var s := Handle(r, FinalizeFrame(b), at);
      && s.ota.buffer == r.ota.buffer
      && if Crc32(r.ota.buffer) == Crc32(b) then s.ota.state == Ready && s.signal == Some(|r.ota.buffer|)
         else s.ota.state == Failed && s.signal == r.signal
  {
    FrameIsRead(OTA_FINALIZE, Le(Crc32(b), 4));
    U32RoundTrip(Crc32(b), []);
    assert Le(Crc32(b), 4) + [] == Le(Crc32(b), 4);
  }

  /** The frames of a transfer of `b` in the pieces `ws`. */
  function TransferFrames(b: seq<byte>, ws: seq<Write>): (fs: seq<seq<byte>>)
    requires Framable(ws)
    ensures |fs| == |ws| + 2
  {
    [BeginFrame(b)] + ChunkFrames(ws) + [FinalizeFrame(b)]
  }

  lemma TransferInOneGo(r: Radio, b: seq<byte>, ws: seq<Write>, at: seq<u64>) returns (buffer: seq<byte>)
    requires ValidRadio(r) && 0 < |b| <= MAX_BINARY_SIZE && |at| == |ws| + 2
    requires TrueSlices(b, ws)
    ensures |buffer| == |b| && forall i :: 0 <= i < |b| ==> buffer[i] == if Covered(ws, i) then b[i] else 0
    ensures
      var s := HandleAll(r, TransferFrames(b, ws), at);
      && s.ota.buffer == buffer
      && if Crc32(buffer) == Crc32(b) then s.ota.state == Ready && s.signal == Some(|b|)
         else s.ota.state == Failed && s.signal == r.signal
  {
    var n := |ws| + 1;
    var front := [BeginFrame(b)] + ChunkFrames(ws);
    HandleAllConcat(r, front, [FinalizeFrame(b)], at);
    HandleAllConcat(r, [BeginFrame(b)], ChunkFrames(ws), at[..n]);
    HandleOne(r, BeginFrame(b), at[..n][..1]);
    var begun := Handle(r, BeginFrame(b), at[0]);
    BeginStep(r, b, at[0]);
    ChunksAccumulate(begun, b, ws, at[..n][1..]);
    var filled := HandleAll(r, front, at[..n]);
    buffer := filled.ota.buffer;
    HandleOne(filled, FinalizeFrame(b), at[n..]);
    FinalizeStep(filled, b, at[n]);
    NoSignalBefore(begun, ws, at[..n][1..]);
    FrameIsRead(OTA_BEGIN, Le(|b|, 4));
  }

  /** Chunks never signal. */
  lemma {:induction false} NoSignalBefore(r: Radio, ws: seq<Write>, at: seq<u64>)
    requires ValidRadio(r) && |at| == |ws|
    requires Framable(ws)
    ensures HandleAll(r, ChunkFrames(ws), at).signal == r.signal
    decreases |ws|
  {
    if ws != [] {
      var n := |ws| - 1;
      NoSignalBefore(r, ws[..n], at[..n]);
      HandleAllConcat(r, ChunkFrames(ws[..n]), [ChunkFrame(ws[n])], at);
      HandleOne(HandleAll(r, ChunkFrames(ws[..n]), at[..n]), ChunkFrame(ws[n]), at[n..]);
      FrameIsRead(OTA_CHUNK, Le(ws[n].offset, 4) + ws[n].data);
    }
  }

  // ── Other traffic in between ──────────────────────────────────────────────

  /** A frame no session takes note of: malformed, no OTA command, or a chunk without data. */
  predicate Neutral(f: seq<byte>) { !FrameValid(f) || !IsOtaCommand(f[2]) || (f[2] == OTA_CHUNK && |Body(f)| < 5) }

  /** The frames with the neutral ones taken out. */
  function Sifted(frames: seq<seq<byte>>): seq<seq<byte>>
    decreases |frames|
  {
    if frames == [] then []
    else (if Neutral(frames[0]) then [] else [frames[0]]) + Sifted(frames[1..])
  }

  predicate SameSession(r: Radio, s: Radio) { r.ota == s.ota && r.signal == s.signal }

  lemma SameFrame(r: Radio, s: Radio, f: seq<byte>, at: u64, at': u64)
    requires ValidRadio(r) && ValidRadio(s) && SameSession(r, s)
    ensures SameSession(Handle(r, f, at), Handle(s, f, at'))
  {}

  lemma NeutralFrame(r: Radio, f: seq<byte>, at: u64)
    requires ValidRadio(r) && Neutral(f)
    ensures SameSession(Handle(r, f, at), r)
  {}

  /** Neither neutral frames nor the times matter to the session. */
  lemma {:induction false} OnlySiftedMatter(r: Radio, s: Radio, frames: seq<seq<byte>>, at: seq<u64>, at': seq<u64>)
    requires ValidRadio(r) && ValidRadio(s) && SameSession(r, s)
    requires |at| == |frames| && |at'| == |Sifted(frames)|
    ensures SameSession(HandleAll(r, frames, at), HandleAll(s, Sifted(frames), at'))
    decreases |frames|
  {
    if frames != [] {
      var f, rest := frames[0], Sifted(frames[1..]);
      if Neutral(f) {
        NeutralFrame(r, f, at[0]);
        assert Sifted(frames) == rest;
        OnlySiftedMatter(Handle(r, f, at[0]), s, frames[1..], at[1..], at');
      } else {
        SameFrame(r, s, f, at[0], at'[0]);
        assert Sifted(frames) == [f] + rest && ([f] + rest)[1..] == rest;
        OnlySiftedMatter(Handle(r, f, at[0]), Handle(s, f, at'[0]), frames[1..], at[1..], at'[1..]);
      }
    }
  }

  /** The frames are those of the transfer, with any neutral ones before, between and after them. */
  predicate Transfers(frames: seq<seq<byte>>, b: seq<byte>, ws: seq<Write>) {
    Framable(ws) && Sifted(frames) == TransferFrames(b, ws)
  }

  lemma {:induction false} SiftedKeeps(frames: seq<seq<byte>>)
    requires forall k :: 0 <= k < |frames| ==> !Neutral(frames[k])
    ensures Sifted(frames) == frames
    decreases |frames|
  {
    if frames != [] {
      SiftedKeeps(frames[1..]);
    }
  }

  lemma {:induction false} ChunkFramesCount(b: seq<byte>, ws: seq<Write>)
    requires TrueSlices(b, ws)
    ensures forall k :: 0 <= k < |ws| ==> !Neutral(ChunkFrames(ws)[k])
  {
    if ws != [] {
      var n := |ws| - 1;
      ChunkFramesCount(b, ws[..n]);
      FrameIsRead(OTA_CHUNK, Le(ws[n].offset, 4) + ws[n].data);
    }
  }

  /** In particular just those. */
  lemma BareTransfer(b: seq<byte>, ws: seq<Write>)
    requires TrueSlices(b, ws)
    ensures Transfers(TransferFrames(b, ws), b, ws)
  {
    FrameIsRead(OTA_BEGIN, Le(|b|, 4));
    FrameIsRead(OTA_FINALIZE, Le(Crc32(b), 4));
    ChunkFramesCount(b, ws);
    SiftedKeeps(TransferFrames(b, ws));
  }

  /**
   * From any state and with any neutral frames in between: the buffer holds `b` where the pieces cover it and
   * zero elsewhere, and the checksum decides.
   */
  lemma TransferOutcome(r: Radio, b: seq<byte>, ws: seq<Write>, frames: seq<seq<byte>>, at: seq<u64>)
    returns (buffer: seq<byte>)
    requires ValidRadio(r) && 0 < |b| <= MAX_BINARY_SIZE && |at| == |frames|
    requires TrueSlices(b, ws) && Transfers(frames, b, ws)
    ensures |buffer| == |b| && forall i :: 0 <= i < |b| ==> buffer[i] == if Covered(ws, i) then b[i] else 0
    ensures
      var s := HandleAll(r, frames, at);
      && s.ota.buffer == buffer
      && if Crc32(buffer) == Crc32(b) then s.ota.state == Ready && s.signal == Some(|b|)
         else s.ota.state == Failed && s.signal == r.signal
  {
    var at' := seq(|ws| + 2, _ => 0);
    buffer := TransferInOneGo(r, b, ws, at');
    OnlySiftedMatter(r, r, frames, at, at');
  }

  /** So the transfer ends in Ready exactly when the generator divides what is wrong in the buffer. */
  lemma AcceptedExactly(r: Radio, b: seq<byte>, ws: seq<Write>, frames: seq<seq<byte>>, at: seq<u64>)
    requires ValidRadio(r) && 0 < |b| <= MAX_BINARY_SIZE && |at| == |frames|
    requires TrueSlices(b, ws) && Transfers(frames, b, ws)
    ensures
      var o := HandleAll(r, frames, at).ota;
      && |o.buffer| == |b|
      && (o.state == Ready <==>
            Remainder(MessageBits(XorMessages(o.buffer, b)) + Zeros(32), Generator()) == Zeros(32))
  {
    var buffer := TransferOutcome(r, b, ws, frames, at);
    MissedExactly(buffer, b);
  }

  /**
   * True slices that cover the binary, in any order, overlapping or repeated, between any other traffic, and
   * starting from any state, end in Ready with exactly that binary, and its length is signalled.
   */
  lemma AnyOrderReassembles(r: Radio, b: seq<byte>, ws: seq<Write>, frames: seq<seq<byte>>, at: seq<u64>)
    requires ValidRadio(r) && 0 < |b| <= MAX_BINARY_SIZE && |at| == |frames|
    requires TrueSlices(b, ws) && Transfers(frames, b, ws)
    requires forall i :: 0 <= i < |b| ==> Covered(ws, i)
    ensures
      var s := HandleAll(r, frames, at);
      Taken(s.ota) == Some(b) && s.signal == Some(|b|)
  {
    var buffer := TransferOutcome(r, b, ws, frames, at);
    assert buffer == b;
  }

  /**
   * If the pieces miss bytes of the binary, but only within four consecutive ones and not all of them zero,
   * the transfer fails: the binary is never handed over.
   */
  lemma MissingBurstIsRefused(
    r: Radio, b: seq<byte>, ws: seq<Write>, frames: seq<seq<byte>>, at: seq<u64>, j: nat)
    requires ValidRadio(r) && 0 < |b| <= MAX_BINARY_SIZE && |at| == |frames|
    requires TrueSlices(b, ws) && Transfers(frames, b, ws)
    requires forall i :: 0 <= i < |b| && !(j <= i < j + 4) ==> Covered(ws, i)
    requires exists i :: 0 <= i < |b| && !Covered(ws, i) && b[i] != 0
    ensures HandleAll(r, frames, at).ota.state == Failed
  {
    var buffer := TransferOutcome(r, b, ws, frames, at);
    var i :| 0 <= i < |b| && !Covered(ws, i) && b[i] != 0;
    assert buffer[i] != b[i];
    FourByteBurstDetected(buffer, b, j);
  }

  /**
   * After such a transfer a second finalise, whatever its checksum, is refused and yet signals the binary
   * again.
   */
  lemma RefusedFinaliseSignals(
    r: Radio, b: seq<byte>, ws: seq<Write>, frames: seq<seq<byte>>, at: seq<u64>, checksum: u32)
    requires ValidRadio(r) && 0 < |b| <= MAX_BINARY_SIZE && |at| == |frames|
    requires TrueSlices(b, ws) && Transfers(frames, b, ws)
    requires forall i :: 0 <= i < |b| ==> Covered(ws, i)
    ensures SignalsAgain(HandleAll(r, frames, at), |b|, checksum)
  {
    AnyOrderReassembles(r, b, ws, frames, at);
    SecondFinalise(HandleAll(r, frames, at), b, checksum);
  }

  lemma SecondFinalise(r: Radio, b: seq<byte>, checksum: u32)
    requires ValidRadio(r) && Taken(r.ota) == Some(b)
    ensures SignalsAgain(r, |b|, checksum)
  {
    FrameIsRead(OTA_FINALIZE, Le(checksum, 4));
  }

  lemma OneChunk(b: seq<byte>, ws: seq<Write>)
    requires 0 < |b| <= CHUNK_MAX && ws == [Write(0, b)]
    ensures TrueSlices(b, ws) && forall i :: 0 <= i < |b| ==> Covered(ws, i)
  {
    assert b[..|b|] == b;
    forall i | 0 <= i < |b|
      ensures Covered(ws, i)
    {
      assert Covers(ws[0], i);
    }
  }

  /** The frames and their times as events of a radio run. */
  function FrameEvents(frames: seq<seq<byte>>, at: seq<u64>): (es: seq<RadioEvent>)
    requires |at| == |frames|
    ensures |es| == |frames| && forall i :: 0 <= i < |es| ==> es[i] == Frame(frames[i], at[i])
  {
    seq(|frames|, i requires 0 <= i < |frames| => Frame(frames[i], at[i]))
  }

  /** From event `n` on, the run receives these frames. */
  ghost predicate Receives(es: seq<RadioEvent>, n: nat, frames: seq<seq<byte>>, at: seq<u64>) {
    && |at| == |frames| && n + |frames| <= |es|
    && forall i :: 0 <= i < |frames| ==> ReceivesAt(es, n, frames, at, i)
  }

  ghost predicate ReceivesAt(es: seq<RadioEvent>, n: nat, frames: seq<seq<byte>>, at: seq<u64>, i: nat)
    requires i < |frames| == |at| && n + |frames| <= |es|
  {
    es[n + i] == Frame(frames[i], at[i])
  }

  lemma ReceivesRest(es: seq<RadioEvent>, n: nat, frames: seq<seq<byte>>, at: seq<u64>)
    requires Receives(es, n, frames, at) && frames != []
    ensures es[n] == Frame(frames[0], at[0]) && Receives(es, n + 1, frames[1..], at[1..])
  {
    assert ReceivesAt(es, n, frames, at, 0);
    var next, rest, times := n + 1, frames[1..], at[1..];
    forall i | 0 <= i < |rest|
      ensures ReceivesAt(es, next, rest, times, i)
    {
      assert ReceivesAt(es, n, frames, at, i + 1);
    }
  }

  lemma OneFrameOn(es: seq<RadioEvent>, n: nat, f: seq<byte>, at: u64)
    requires n < |es| && es[n] == Frame(f, at)
    ensures RadioAfter(es, n + 1) == Handle(RadioAfter(es, n), f, at)
  {}

  lemma PrependFrame(r: Radio, s: Radio, last: Radio, frames: seq<seq<byte>>, at: seq<u64>)
    requires ValidRadio(r) && frames != [] && |at| == |frames|
    requires s == Handle(r, frames[0], at[0]) && last == HandleAll(s, frames[1..], at[1..])
    ensures last == HandleAll(r, frames, at)
  {}

  /** Handling some frames at any point of a radio run is going on with that run. */
  lemma {:induction false} FramesGoOn(es: seq<RadioEvent>, n: nat, frames: seq<seq<byte>>, at: seq<u64>, end: nat)
    requires Receives(es, n, frames, at) && end == n + |frames|
    ensures RadioAfter(es, end) == HandleAll(RadioAfter(es, n), frames, at)
    decreases |frames|
  {
    if frames != [] {
      ReceivesRest(es, n, frames, at);
      OneFrameOn(es, n, frames[0], at[0]);
      FramesGoOn(es, n + 1, frames[1..], at[1..], end);
      PrependFrame(RadioAfter(es, n), RadioAfter(es, n + 1), RadioAfter(es, end), frames, at);
    }
  }

  /** In the session of `r` a second finalise is refused and yet signals. */
  ghost predicate SignalsAgain(r: Radio, length: nat, checksum: u32)
    requires ValidRadio(r)
  {
    var again := FrameOf(OTA_FINALIZE, Le(checksum, 4));
    FrameValid(again) && !FinalizeAccepted(r.ota, Body(again)) && Signalled(r, again) == Some(length)
  }

  lemma TransferInRun(b: seq<byte>, ws: seq<Write>, frames: seq<seq<byte>>, at: seq<u64>, checksum: u32)
    returns (es: seq<RadioEvent>)
    requires 0 < |b| <= MAX_BINARY_SIZE && |at| == |frames|
    requires TrueSlices(b, ws) && Transfers(frames, b, ws)
    requires forall i :: 0 <= i < |b| ==> Covered(ws, i)
    ensures SignalsAgain(RadioAfter(es, |es|), |b|, checksum)
  {
    var boot := EspNow.Boot();
    es := FrameEvents(frames, at);
    assert RadioAfter(es, 0) == boot;
    FramesGoOn(es, 0, frames, at, |es|);
    RefusedFinaliseSignals(boot, b, ws, frames, at, checksum);
  }

  /** So it happens in a run from boot: a binary in one chunk, and a second finalise. */
  lemma RefusedFinaliseFromBoot(b: seq<byte>, checksum: u32) returns (es: seq<RadioEvent>)
    requires 0 < |b| <= CHUNK_MAX
    ensures SignalsAgain(RadioAfter(es, |es|), |b|, checksum)
  {
    var ws := [Write(0, b)];
    OneChunk(b, ws);
    BareTransfer(b, ws);
    var frames := TransferFrames(b, ws);
    es := TransferInRun(b, ws, frames, seq(|frames|, _ => 0), checksum);
  }

  /** A staged image damaged only within 32 consecutive bits is refused when the sender's checksum arrives. */
  lemma DamagedImageIsRefused(o: OtaFields, b: seq<byte>, payload: seq<byte>, k: nat)
    requires Valid(o) && o.state == Receiving && o.buffer != b
    requires DifferInWindow(MessageBits(o.buffer), MessageBits(b), k)
    requires |payload| >= 4 && U32At(payload, 0) == Crc32(b)
    ensures Finalize(o, payload).state == Failed
  {
    BurstDetected(o.buffer, b, k);
  }

  // ── What the byte counter means ───────────────────────────────────────────

  function Range(from: nat, length: nat): (s: set<nat>)
    ensures |s| == length && forall i: nat :: i in s <==> from <= i < from + length
  {
    if length == 0 then {} else Range(from, length - 1) + {from + length - 1}
  }

  /** The offsets written at least once. */
  function Offsets(ws: seq<Write>): (s: set<nat>)
    ensures |s| <= SumLengths(ws)
  {
    if ws == [] then {}
    else
      var before, last := Offsets(ws[..|ws| - 1]), Range(ws[|ws| - 1].offset, |ws[|ws| - 1].data|);
      UnionSize(before, last);
      before + last
  }

  lemma UnionSize(a: set<nat>, b: set<nat>)
    ensures |a + b| <= |a| + |b|
    ensures a !! b ==> |a + b| == |a| + |b|
  {}

  ghost predicate Disjoint(v: Write, w: Write) {
    v.offset + |v.data| <= w.offset || w.offset + |w.data| <= v.offset
  }

  ghost predicate PairwiseDisjoint(ws: seq<Write>) {
    forall i, j :: 0 <= i < j < |ws| ==> Disjoint(ws[i], ws[j])
  }

  lemma LastOffset(w: Write, i: nat)
    ensures i in Range(w.offset, |w.data|) <==> Covers(w, i)
  {}

  lemma {:induction false} OffsetsAreCovered(ws: seq<Write>, i: nat)
    ensures i in Offsets(ws) <==> Covered(ws, i)
  {
    if ws != [] {
      var n := |ws| - 1;
      var prefix, w := ws[..n], ws[n];
      assert ws == prefix + [w];
      OffsetsAreCovered(prefix, i);
      LastOffset(w, i);
      CoveredLast(prefix, w, i);
    }
  }

  lemma {:induction false} DisjointSum(ws: seq<Write>)
    requires PairwiseDisjoint(ws)
    ensures |Offsets(ws)| == SumLengths(ws)
  {
    if ws != [] {
      var n := |ws| - 1;
      var before, last := Offsets(ws[..n]), Range(ws[n].offset, |ws[n].data|);
      DisjointSum(ws[..n]);
      forall i: nat | i in before
        ensures i !in last
      {
        OffsetsAreCovered(ws[..n], i);
        var k :| 0 <= k < n && Covers(ws[..n][k], i);
        assert Disjoint(ws[k], ws[n]);
      }
      UnionSize(before, last);
    }
  }

  ghost predicate NoneEmpty(ws: seq<Write>) { forall k :: 0 <= k < |ws| ==> |ws[k].data| > 0 }

  /** A write that overlaps the last one has an offset in common with it. */
  lemma OverlapIsCommon(ws: seq<Write>, n: nat, i: nat)
    requires i < n == |ws| - 1 && |ws[i].data| > 0 && |ws[n].data| > 0 && !Disjoint(ws[i], ws[n])
    ensures !(Offsets(ws[..n]) !! Range(ws[n].offset, |ws[n].data|))
  {
    var x := if ws[i].offset < ws[n].offset then ws[n].offset else ws[i].offset;
    assert Covers(ws[..n][i], x);
    OffsetsAreCovered(ws[..n], x);
    assert x in Offsets(ws[..n]) * Range(ws[n].offset, |ws[n].data|);
  }

  lemma DisjointFromAll(ws: seq<Write>, n: nat)
    requires n == |ws| - 1 && PairwiseDisjoint(ws[..n])
    requires forall i :: 0 <= i < n ==> Disjoint(ws[i], ws[n])
    ensures PairwiseDisjoint(ws)
  {
    forall i, j | 0 <= i < j < |ws|
      ensures Disjoint(ws[i], ws[j])
    {
      if j < n {
        assert Disjoint(ws[..n][i], ws[..n][j]);
      }
    }
  }

  lemma {:induction false} TightSumIsDisjoint(ws: seq<Write>)
    requires |Offsets(ws)| == SumLengths(ws) && NoneEmpty(ws)
    ensures PairwiseDisjoint(ws)
  {
    if ws != [] {
      var n := |ws| - 1;
      var before, last := Offsets(ws[..n]), Range(ws[n].offset, |ws[n].data|);
      UnionSize(before, last);
      TightUnion(before, last);
      TightSumIsDisjoint(ws[..n]);
      forall i | 0 <= i < n
        ensures Disjoint(ws[i], ws[n])
      {
        if !Disjoint(ws[i], ws[n]) {
          OverlapIsCommon(ws, n, i);
        }
      }
      DisjointFromAll(ws, n);
    }
  }

  lemma TightUnion(a: set<nat>, b: set<nat>)
    requires |a + b| == |a| + |b|
    ensures a !! b
  {
    assert a + b == a + (b - a) && a !! (b - a);
    UnionSize(a, b - a);
    assert b == (b - a) + a * b;
    UnionSize(b - a, a * b);
    assert (b - a) !! (a * b);
  }

  /** The lengths add up to the number of offsets written exactly when no two writes overlap. */
  lemma DisjointExactly(ws: seq<Write>)
    requires NoneEmpty(ws)
    ensures |Offsets(ws)| == SumLengths(ws) <==> PairwiseDisjoint(ws)
  {
    if PairwiseDisjoint(ws) {
      DisjointSum(ws);
    } else if |Offsets(ws)| == SumLengths(ws) {
      TightSumIsDisjoint(ws);
    }
  }

  lemma SubsetSize(a: set<nat>, b: set<nat>)
    requires a <= b
    ensures |a| <= |b| && (|a| == |b| <==> a == b)
  {
    assert b == a + (b - a);
    UnionSize(a, b - a);
    assert |b - a| == 0 <==> b - a == {};
  }

  lemma OffsetsInRange(ws: seq<Write>, total: nat)
    requires forall w :: w in ws ==> w.offset + |w.data| <= total
    ensures Offsets(ws) <= Range(0, total)
  {}

  ghost predicate AllCovered(ws: seq<Write>, total: nat) { forall i :: 0 <= i < total ==> Covered(ws, i) }

  lemma AllCoveredSize(ws: seq<Write>, total: nat)
    requires Offsets(ws) <= Range(0, total)
    ensures |Offsets(ws)| <= total
    ensures |Offsets(ws)| == total <==> AllCovered(ws, total)
  {
    SubsetSize(Offsets(ws), Range(0, total));
    forall i: nat
      ensures i in Offsets(ws) <==> Covered(ws, i)
    {
      OffsetsAreCovered(ws, i);
    }
    assert AllCovered(ws, total) ==> Offsets(ws) == Range(0, total);
  }

  /**
   * What the counter says of the accepted writes. It is the sum of their lengths, so until that sum wraps it
   * bounds the number of offsets written, and is that number exactly when no two writes overlap; a counter
   * that has reached the declared size means a complete buffer exactly then. Without overlaps it never wraps.
   */
  ghost predicate CounterMeaning(bytesReceived: nat, total: nat, ws: seq<Write>) {
    && bytesReceived == SumLengths(ws) % 0x1_0000_0000
    && |Offsets(ws)| <= total
    && (SumLengths(ws) < 0x1_0000_0000 ==> CountsOffsets(bytesReceived, total, ws))
    && (PairwiseDisjoint(ws) ==>
          && SumLengths(ws) <= total < 0x1_0000_0000
          && (bytesReceived == total <==> AllCovered(ws, total)))
  }

  ghost predicate CountsOffsets(bytesReceived: nat, total: nat, ws: seq<Write>) {
    && bytesReceived >= |Offsets(ws)|
    && (bytesReceived == |Offsets(ws)| <==> PairwiseDisjoint(ws))
    && (bytesReceived == total ==> (AllCovered(ws, total) <==> PairwiseDisjoint(ws)))
  }

  lemma SumCounts(ws: seq<Write>, total: nat)
    requires Offsets(ws) <= Range(0, total) && NoneEmpty(ws)
    ensures |Offsets(ws)| <= total && CountsOffsets(SumLengths(ws), total, ws)
    ensures PairwiseDisjoint(ws) ==> SumLengths(ws) <= total && (SumLengths(ws) == total <==> AllCovered(ws, total))
  {
    AllCoveredSize(ws, total);
    DisjointExactly(ws);
  }

  lemma CounterOf(bytesReceived: nat, total: nat, ws: seq<Write>)
    requires bytesReceived == SumLengths(ws) % 0x1_0000_0000
    requires total <= MAX_BINARY_SIZE && Offsets(ws) <= Range(0, total) && NoneEmpty(ws)
    ensures CounterMeaning(bytesReceived, total, ws)
  {
    SumCounts(ws, total);
    NoWrap(SumLengths(ws));
  }

  lemma NoWrap(sum: nat)
    ensures sum < 0x1_0000_0000 ==> sum % 0x1_0000_0000 == sum
  {}

  lemma CounterInRuns(es: seq<Event>, n: nat)
    requires n <= |es|
    ensures CounterMeaning(After(es, n).bytesReceived, After(es, n).totalSize, LogAfter(es, n).writes)
  {
    BufferIsLastWrites(es, n);
    var ws := LogAfter(es, n).writes;
    forall k | 0 <= k < |ws|
      ensures |ws[k].data| > 0
    {
      assert ws[k] in ws;
    }
    OffsetsInRange(ws, After(es, n).totalSize);
    CounterOf(After(es, n).bytesReceived, After(es, n).totalSize, LogAfter(es, n).writes);
  }

  /** A begin of size `total`, and then the same chunk over and over. */
  ghost predicate RepeatsChunk(es: seq<Event>, total: u32, w: Write) {
    forall k :: 0 <= k < |es| ==> BeginOrChunk(es, k, total, w)
  }

  predicate BeginOrChunk(es: seq<Event>, k: nat, total: u32, w: Write)
    requires k < |es|
  {
    es[k] == if k == 0 then Receive(OTA_BEGIN, Le(total, 4)) else Receive(OTA_CHUNK, Le(w.offset, 4) + w.data)
  }

  lemma BegunAlone(es: seq<Event>, total: u32, w: Write)
    requires es != [] && GoodSize(total) && RepeatsChunk(es, total, w)
    ensures After(es, 1) == OtaFields(Receiving, Zeroed(total), total, 0, 0) && LogAfter(es, 1) == Log(total, [])
  {
    assert BeginOrChunk(es, 0, total, w);
    U32RoundTrip(total, []);
    assert Le(total, 4) + [] == Le(total, 4);
    assert After(es, 0) == New() && LogAfter(es, 0) == Log(0, []);
  }

  function Copies(w: Write, n: nat): (ws: seq<Write>)
    ensures |ws| == n && forall k :: 0 <= k < n ==> ws[k] == w
  {
    seq(n, _ => w)
  }

  /** `n` copies of the chunk have been accepted. */
  ghost predicate HasCopies(o: OtaFields, log: Log, total: u32, w: Write, n: nat) {
    && o.state == Receiving && o.totalSize == total
    && o.bytesReceived == Multiple(n, |w.data|) % 0x1_0000_0000 && log.writes == Copies(w, n)
  }

  lemma ChunkOnceMore(o: OtaFields, log: Log, e: Event, total: u32, w: Write, n: nat)
    requires Valid(o) && HasCopies(o, log, total, w, n) && |w.data| > 0 && w.offset + |w.data| <= total
    requires e == Receive(OTA_CHUNK, Le(w.offset, 4) + w.data)
    ensures HasCopies(Apply(o, e), LogStep(o, log, e), total, w, n + 1)
  {
    U32RoundTrip(w.offset, w.data);
    assert (Le(w.offset, 4) + w.data)[4..] == w.data;
    assert Copies(w, n + 1) == Copies(w, n) + [w];
    WrappedSum(o.bytesReceived, Multiple(n, |w.data|), |w.data|);
  }

  lemma {:induction false} CounterOfCopies(es: seq<Event>, n: nat, total: u32, w: Write)
    requires 0 < n <= |es| && RepeatsChunk(es, total, w) && |w.data| > 0 && w.offset + |w.data| <= total
    requires total <= MAX_BINARY_SIZE
    ensures HasCopies(After(es, n), LogAfter(es, n), total, w, n - 1)
  {
    if n == 1 {
      BegunAlone(es, total, w);
    } else {
      CounterOfCopies(es, n - 1, total, w);
      assert BeginOrChunk(es, n - 1, total, w);
      ChunkOnceMore(After(es, n - 1), LogAfter(es, n - 1), es[n - 1], total, w, n - 2);
    }
  }

  function Multiple(n: nat, length: nat): nat { if n == 0 then 0 else Multiple(n - 1, length) + length }

  /** The counter says complete, and bytes are missing. */
  ghost predicate Misleads(o: OtaFields, log: Log) {
    o.bytesReceived == o.totalSize && exists i :: 0 <= i < o.totalSize && !Covered(log.writes, i)
  }

  lemma CopiesLeaveGap(w: Write, n: nat, total: nat)
    requires 0 < |w.data| < total && w.offset + |w.data| <= total
    ensures exists i :: 0 <= i < total && !Covered(Copies(w, n), i)
  {
    var gap := if w.offset > 0 then 0 else |w.data|;
    assert !Covered(Copies(w, n), gap);
  }

  /** The run of a begin and `n` copies of a chunk, up to its end. */
  ghost predicate RunOfCopies(es: seq<Event>, total: u32, w: Write, n: nat) {
    |es| == n + 1 && RepeatsChunk(es, total, w)
  }

  lemma EndOfCopies(es: seq<Event>, total: u32, w: Write, n: nat)
    requires RunOfCopies(es, total, w, n) && 0 < |w.data| && w.offset + |w.data| <= total <= MAX_BINARY_SIZE
    ensures HasCopies(After(es, n + 1), LogAfter(es, n + 1), total, w, n)
  {
    CounterOfCopies(es, n + 1, total, w);
  }

  /**
   * Without disjointness the counter can reach the declared size with bytes missing: any chunk whose length
   * divides the size, sent so often; the first half of a binary, say, sent twice.
   */
  lemma CounterCanMislead(es: seq<Event>, total: u32, w: Write, n: nat)
    requires RunOfCopies(es, total, w, n) && Multiple(n, |w.data|) == total <= MAX_BINARY_SIZE
    requires 0 < |w.data| < total && w.offset + |w.data| <= total
    ensures Misleads(After(es, n + 1), LogAfter(es, n + 1))
  {
    EndOfCopies(es, total, w, n);
    CopiesMislead(After(es, n + 1), LogAfter(es, n + 1), total, w, n);
  }

  lemma CopiesMislead(o: OtaFields, log: Log, total: u32, w: Write, n: nat)
    requires HasCopies(o, log, total, w, n) && Multiple(n, |w.data|) == total
    requires 0 < |w.data| < total && w.offset + |w.data| <= total
    ensures Misleads(o, log)
  {
    NoWrap(total);
    CopiesLeaveGap(w, n, total);
  }
}
