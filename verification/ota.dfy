/**
 * The OTA receiver of firmware/src/core0/ota.rs.
 *
 * `OtaReceiver` is the class the firmware has; each method is proved to take the fields (`Value()`) where
 * the function of the same name takes them. What the protocol promises is proved about those functions
 * over whole runs (`Exec`): the buffer is made of the last accepted writes, and nothing is handed over
 * that was not verified.
 */
module Ota {
  import opened Wrappers
  import opened Bytes
  import opened Crc

  const MAX_BINARY_SIZE := 512 * 1024
  const OTA_BEGIN: byte := 0x50
  const OTA_CHUNK: byte := 0x51
  const OTA_FINALIZE: byte := 0x52
  /** `usize::MAX` on the 32-bit target. */
  const USIZE_MAX := 0xFFFF_FFFF

  datatype OtaState = Idle | Receiving | Ready | Swapping | Failed

  datatype OtaFields = OtaFields(
    state: OtaState, buffer: seq<byte>, totalSize: u32, bytesReceived: u32, swapCount: u32)

  /** What holds between any two calls. */
  ghost predicate Valid(o: OtaFields) {
    && |o.buffer| == o.totalSize <= MAX_BINARY_SIZE
    && o.state != Swapping
    && (o.state == Idle ==> o.totalSize == 0)
    && (o.state == Receiving || o.state == Ready ==> o.totalSize > 0)
  }

  function New(): (o: OtaFields)
    ensures Valid(o)
  {
    OtaFields(Idle, [], 0, 0, 0)
  }

  // ── The handlers as functions ─────────────────────────────────────────────

  function Zeroed(n: nat): (b: seq<byte>)
    ensures |b| == n && forall i :: 0 <= i < n ==> b[i] == 0
  {
    seq(n, _ => 0)
  }

  function SaturatingAdd(a: nat, b: nat, max: nat): nat { if a + b > max then max else a + b }

  predicate GoodSize(total: u32) { 0 < total <= MAX_BINARY_SIZE }

  predicate BeginAccepted(payload: seq<byte>) { |payload| >= 4 && GoodSize(U32At(payload, 0)) }

  function Begin(o: OtaFields, payload: seq<byte>): (r: OtaFields)
    requires Valid(o)
    ensures Valid(r)
  {
    if BeginAccepted(payload) then OtaFields(Receiving, Zeroed(U32At(payload, 0)), U32At(payload, 0), 0, o.swapCount)
    else o.(state := Failed)
  }

  predicate ChunkInRange(offset: u32, length: nat, total: u32) { offset + length <= total }

  predicate ChunkAccepted(o: OtaFields, payload: seq<byte>) {
    && o.state == Receiving
    && |payload| >= 5
    && ChunkInRange(U32At(payload, 0), |payload| - 4, o.totalSize)
  }

  /** `data` written over `buffer` at `offset`. */
  function Overlay(buffer: seq<byte>, offset: nat, data: seq<byte>): (r: seq<byte>)
    requires offset + |data| <= |buffer|
    ensures |r| == |buffer|
    ensures forall i :: 0 <= i < |r| ==> r[i] == if offset <= i < offset + |data| then data[i - offset] else buffer[i]
  {
    buffer[..offset] + data + buffer[offset + |data|..]
  }

  /** Byte for byte, `after` is `before` with the payload from its fifth byte on at `offset`. */
  ghost predicate Writes(before: seq<byte>, after: seq<byte>, offset: nat, payload: seq<byte>)
    requires |payload| >= 4 && |before| == |after|
  {
    forall i :: 0 <= i < |after| ==>
      after[i] == if offset <= i < offset + |payload| - 4 then payload[4 + i - offset] else before[i]
  }

  function Chunk(o: OtaFields, payload: seq<byte>): (r: OtaFields)
    requires Valid(o)
    ensures Valid(r)
  {
    if ChunkAccepted(o, payload) then
      o.(buffer := Overlay(o.buffer, U32At(payload, 0), payload[4..]),
         bytesReceived := (o.bytesReceived + |payload| - 4) % 0x1_0000_0000)
    else if o.state == Receiving && |payload| >= 5 then o.(state := Failed)
    else o
  }

  predicate FinalizeAccepted(o: OtaFields, payload: seq<byte>) {
    o.state == Receiving && |payload| >= 4 && U32At(payload, 0) == Crc32(o.buffer)
  }

  function Finalize(o: OtaFields, payload: seq<byte>): (r: OtaFields)
    requires Valid(o)
    ensures Valid(r)
  {
    if o.state != Receiving then o
    else o.(state := if FinalizeAccepted(o, payload) then Ready else Failed)
  }

  function Take(o: OtaFields): (r: OtaFields)
    requires Valid(o)
    ensures Valid(r)
  {
    if o.state != Ready then o else OtaFields(Idle, [], 0, 0, (o.swapCount + 1) % 0x1_0000_0000)
  }

  /** What `ready_binary` and `take_verified_binary` hand out. */
  function Taken(o: OtaFields): Option<seq<byte>> { if o.state == Ready then Some(o.buffer) else None }

  function ResetFailed(o: OtaFields): (r: OtaFields)
    requires Valid(o)
    ensures Valid(r)
  {
    if o.state == Failed then OtaFields(Idle, [], 0, 0, o.swapCount) else o
  }

  predicate IsOtaCommand(id: byte) { id == OTA_BEGIN || id == OTA_CHUNK || id == OTA_FINALIZE }

  function Command(o: OtaFields, id: byte, payload: seq<byte>): (r: OtaFields)
    requires Valid(o)
    ensures Valid(r)
  {
    if id == OTA_BEGIN then Begin(o, payload)
    else if id == OTA_CHUNK then Chunk(o, payload)
    else if id == OTA_FINALIZE then Finalize(o, payload)
    else o
  }

  // ── The receiver ──────────────────────────────────────────────────────────

  class OtaReceiver {
    var state: OtaState
    var buffer: seq<byte>
    var totalSize: u32
    var bytesReceived: u32
    var swapCount: u32

    ghost function Value(): OtaFields
      reads this
    {
      OtaFields(state, buffer, totalSize, bytesReceived, swapCount)
    }

    constructor ()
      ensures Value() == New()
    {
      state, buffer, totalSize, bytesReceived, swapCount := Idle, [], 0, 0, 0;
    }

    method ReadyBinary() returns (binary: Option<seq<byte>>)
      ensures binary == Taken(Value())
    {
      binary := if state == Ready then Some(buffer) else None;
    }

    method HandleBegin(payload: seq<byte>) returns (ok: bool)
      requires Valid(Value())
      modifies this
      ensures Value() == Begin(old(Value()), payload)
      ensures ok == BeginAccepted(payload)
      ensures ok <==> |payload| >= 4 && 0 < Number32(payload, 0) <= 524288
      ensures ok ==> state == Receiving && bytesReceived == 0 && |buffer| == totalSize == Number32(payload, 0)
      ensures ok ==> forall i :: 0 <= i < |buffer| ==> buffer[i] == 0
      ensures !ok ==> state == Failed && unchanged(this`buffer, this`totalSize, this`bytesReceived)
      ensures unchanged(this`swapCount)
    {
      if |payload| < 4 {
        state := Failed;
        return false;
      }
      U32Bytes(payload, 0);
      var total := U32At(payload, 0);
      if total == 0 || total > MAX_BINARY_SIZE {
        state := Failed;
        return false;
      }
      if state == Swapping {
        return false;
      }
      buffer := Zeroed(total);
      totalSize := total;
      bytesReceived := 0;
      state := Receiving;
      ok := true;
    }

    method HandleChunk(payload: seq<byte>) returns (ok: bool)
      requires Valid(Value())
      modifies this
      ensures Value() == Chunk(old(Value()), payload)
      ensures ok == ChunkAccepted(old(Value()), payload)
      ensures ok <==>
        old(state) == Receiving && |payload| >= 5 && Number32(payload, 0) + |payload| - 4 <= old(totalSize)
      ensures ok ==> |buffer| == |old(buffer)| && Writes(old(buffer), buffer, Number32(payload, 0), payload)
      ensures ok ==> state == Receiving && bytesReceived == (old(bytesReceived) + |payload| - 4) % 0x1_0000_0000
      ensures !ok ==> unchanged(this`buffer, this`bytesReceived)
      ensures !ok ==> state == if old(state) == Receiving && |payload| >= 5 then Failed else old(state)
      ensures unchanged(this`totalSize, this`swapCount)
    {
      if state != Receiving {
        return false;
      }
      if |payload| < 5 {
        return false;
      }
      U32Bytes(payload, 0);
      var offset := U32At(payload, 0);
      var data := payload[4..];
      var end := SaturatingAdd(offset, |data|, USIZE_MAX);
      if end > totalSize {
        state := Failed;
        return false;
      }
      buffer := buffer[..offset] + data + buffer[end..];
      bytesReceived := (bytesReceived + |data|) % 0x1_0000_0000;
      ok := true;
    }

    method HandleFinalize(payload: seq<byte>) returns (ok: bool)
      requires Valid(Value())
      modifies this
      ensures Value() == Finalize(old(Value()), payload)
      ensures ok == FinalizeAccepted(old(Value()), payload)
      ensures ok <==> old(state) == Receiving && |payload| >= 4 && Number32(payload, 0) == Crc32(buffer)
      ensures state == if old(state) != Receiving then old(state) else if ok then Ready else Failed
      ensures unchanged(this`buffer, this`totalSize, this`bytesReceived, this`swapCount)
    {
      if state != Receiving {
        return false;
      }
      if |payload| < 4 {
        state := Failed;
        return false;
      }
      U32Bytes(payload, 0);
      var expected := U32At(payload, 0);
      var actual := ComputeCrc32(buffer);
      if actual != expected {
        state := Failed;
        return false;
      }
      state := Ready;
      ok := true;
    }

    method HandleCommand(id: byte, payload: seq<byte>) returns (handled: bool)
      requires Valid(Value())
      modifies this
      ensures Value() == Command(old(Value()), id, payload)
      ensures handled == IsOtaCommand(id)
    {
      handled := true;
      if id == OTA_BEGIN {
        var _ := HandleBegin(payload);
      } else if id == OTA_CHUNK {
        var _ := HandleChunk(payload);
      } else if id == OTA_FINALIZE {
        var _ := HandleFinalize(payload);
      } else {
        handled := false;
      }
    }

    method TakeVerifiedBinary() returns (binary: Option<seq<byte>>)
      requires Valid(Value())
      modifies this
      ensures Value() == Take(old(Value()))
      ensures binary == Taken(old(Value()))
      ensures binary == if old(state) == Ready then Some(old(buffer)) else None
      ensures binary.None? ==> unchanged(this)
      ensures binary.Some? ==>
        && state == Idle && buffer == [] && totalSize == bytesReceived == 0
        && swapCount == (old(swapCount) + 1) % 0x1_0000_0000
    {
      if state != Ready {
        return None;
      }
      state := Swapping;
      binary := Some(buffer);
      buffer := [];
      swapCount := (swapCount + 1) % 0x1_0000_0000;
      state := Idle;
      totalSize := 0;
      bytesReceived := 0;
    }

    method Reset()
      requires Valid(Value())
      modifies this
      ensures Value() == ResetFailed(old(Value()))
      ensures old(state) == Failed ==> state == Idle && buffer == [] && totalSize == bytesReceived == 0
      ensures old(state) != Failed ==> unchanged(this)
      ensures unchanged(this`swapCount)
    {
      if state == Failed {
        buffer := [];
        totalSize := 0;
        bytesReceived := 0;
        state := Idle;
      }
    }
  }

  // ── Runs ──────────────────────────────────────────────────────────────────

  datatype Event = Receive(id: byte, payload: seq<byte>) | TakeBinary | Reset

  function Apply(o: OtaFields, e: Event): (r: OtaFields)
    requires Valid(o)
    ensures Valid(r)
  {
    match e
    case Receive(id, payload) => Command(o, id, payload)
    case TakeBinary => Take(o)
    case Reset => ResetFailed(o)
  }

  /** The receiver after the first `n` events of a run from boot. */
  function After(es: seq<Event>, n: nat): (o: OtaFields)
    requires n <= |es|
    ensures Valid(o)
  {
    if n == 0 then New() else Apply(After(es, n - 1), es[n - 1])
  }

  /** How many binaries were handed over. */
  function HandOvers(es: seq<Event>, n: nat): nat
    requires n <= |es|
  {
    if n == 0 then 0
    else HandOvers(es, n - 1) + if es[n - 1].TakeBinary? && After(es, n - 1).state == Ready then 1 else 0
  }

  lemma SwapStep(o: OtaFields, e: Event)
    requires Valid(o)
    ensures Apply(o, e).swapCount ==
      if e.TakeBinary? && o.state == Ready then (o.swapCount + 1) % 0x1_0000_0000 else o.swapCount
  {}

  lemma WrapsOn(x: nat, y: nat)
    requires y == x % 0x1_0000_0000
    ensures (y + 1) % 0x1_0000_0000 == (x + 1) % 0x1_0000_0000
  {}

  /** In every run the swap counter is their number, in 32 bits. */
  lemma {:induction false} SwapsCounted(es: seq<Event>, n: nat)
    requires n <= |es|
    ensures After(es, n).swapCount == HandOvers(es, n) % 0x1_0000_0000
  {
    if n > 0 {
      SwapsCounted(es, n - 1);
      SwapStep(After(es, n - 1), es[n - 1]);
      WrapsOn(HandOvers(es, n - 1), After(es, n - 1).swapCount);
    }
  }

  predicate AcceptsBegin(e: Event) {
    e.Receive? && e.id == OTA_BEGIN && BeginAccepted(e.payload)
  }

  predicate AcceptsChunk(o: OtaFields, e: Event) {
    e.Receive? && e.id == OTA_CHUNK && ChunkAccepted(o, e.payload)
  }

  predicate AcceptsFinalize(o: OtaFields, e: Event) {
    e.Receive? && e.id == OTA_FINALIZE && FinalizeAccepted(o, e.payload)
  }

  // ── Nothing unverified is handed over ─────────────────────────────────────

  /** After `j` events the receiver is Ready with the buffer it had after `i`, reached by no begin. */
  ghost predicate Held(es: seq<Event>, i: nat, j: nat)
    requires i < j <= |es|
  {
    && After(es, j).state == Ready
    && After(es, j).buffer == After(es, i).buffer
    && !AcceptsBegin(es[j - 1])
  }

  /**
   * Event `i` is a finalise whose checksum is that of the buffer it found, and from there to the first
   * `n` events the receiver stays Ready with that very buffer and accepts no begin.
   */
  ghost predicate VerifiedAt(es: seq<Event>, n: nat, i: nat)
    requires n <= |es|
  {
    && i < n
    && AcceptsFinalize(After(es, i), es[i])
    && forall j :: i < j <= n ==> Held(es, i, j)
  }

  /** Ready is entered by an accepted finalise only, and nothing touches the buffer while it lasts. */
  lemma ReadyStep(o: OtaFields, e: Event)
    requires Valid(o) && Apply(o, e).state == Ready
    ensures Apply(o, e).buffer == o.buffer && !AcceptsBegin(e)
    ensures o.state == Ready || AcceptsFinalize(o, e)
  {}

  lemma VerifiedStart(es: seq<Event>, i: nat)
    requires i < |es| && AcceptsFinalize(After(es, i), es[i]) && Held(es, i, i + 1)
    ensures VerifiedAt(es, i + 1, i)
  {}

  lemma VerifiedFurther(es: seq<Event>, n: nat, i: nat)
    requires n < |es| && VerifiedAt(es, n, i) && Held(es, i, n + 1)
    ensures VerifiedAt(es, n + 1, i)
  {
    forall j | i < j <= n + 1
      ensures Held(es, i, j)
    {
      assert j <= n || j == n + 1;
    }
  }

  lemma {:induction false} ReadyIsVerified(es: seq<Event>, n: nat) returns (i: nat)
    requires n <= |es| && After(es, n).state == Ready
    ensures VerifiedAt(es, n, i)
  {
    ReadyStep(After(es, n - 1), es[n - 1]);
    if After(es, n - 1).state == Ready {
      i := ReadyIsVerified(es, n - 1);
      assert Held(es, i, n - 1);
      VerifiedFurther(es, n - 1, i);
    } else {
      i := n - 1;
      VerifiedStart(es, i);
    }
  }

  /** In the first `n` events of the run, an accepted finalise checksummed `binary`, held unchanged since. */
  ghost predicate Verified(es: seq<Event>, n: nat, binary: seq<byte>)
    requires n <= |es|
  {
    exists i: nat :: VerifiedAt(es, n, i) && After(es, i).buffer == binary && Crc32(binary) == U32At(es[i].payload, 0)
  }

  /** Whatever is handed over, at any point of any run, is verified. */
  lemma HandOverIsVerified(es: seq<Event>, n: nat)
    requires n <= |es| && Taken(After(es, n)).Some?
    ensures Verified(es, n, Taken(After(es, n)).value)
  {
    var i := ReadyIsVerified(es, n);
    assert Held(es, i, n);
  }

  // ── The buffer is made of the last accepted writes ────────────────────────

  datatype Write = Write(offset: nat, data: seq<byte>)
  datatype Log = Log(total: nat, writes: seq<Write>)

  predicate Covers(w: Write, i: nat) { w.offset <= i < w.offset + |w.data| }

  /** The last write covering `i`, or zero. */
  function LastByte(ws: seq<Write>, i: nat): byte {
    if ws == [] then 0
    else
      var w := ws[|ws| - 1];
      if Covers(w, i) then w.data[i - w.offset] else LastByte(ws[..|ws| - 1], i)
  }

  function SumLengths(ws: seq<Write>): nat {
    if ws == [] then 0 else SumLengths(ws[..|ws| - 1]) + |ws[|ws| - 1].data|
  }

  function LogStep(o: OtaFields, log: Log, e: Event): Log {
    if AcceptsBegin(e) then Log(U32At(e.payload, 0), [])
    else if AcceptsChunk(o, e) then Log(log.total, log.writes + [Write(U32At(e.payload, 0), e.payload[4..])])
    else if (e.TakeBinary? && o.state == Ready) || (e.Reset? && o.state == Failed) then Log(0, [])
    else log
  }

  /** The size declared by the last accepted begin and the chunks accepted since. */
  function LogAfter(es: seq<Event>, n: nat): Log
    requires n <= |es|
  {
    if n == 0 then Log(0, []) else LogStep(After(es, n - 1), LogAfter(es, n - 1), es[n - 1])
  }

  /** The fields hold what the log says: sizes, contents byte by byte, and the running count. */
  ghost predicate Reflects(o: OtaFields, log: Log) {
    && o.totalSize == log.total
    && (forall i :: 0 <= i < |o.buffer| ==> o.buffer[i] == LastByte(log.writes, i))
    && (forall w :: w in log.writes ==> 0 < |w.data| && w.offset + |w.data| <= log.total)
    && o.bytesReceived == SumLengths(log.writes) % 0x1_0000_0000
  }

  /** In every run: no accepted write is out of range, and each byte is the last one written there. */
  lemma {:induction false} BufferIsLastWrites(es: seq<Event>, n: nat)
    requires n <= |es|
    ensures Reflects(After(es, n), LogAfter(es, n))
  {
    if n > 0 {
      BufferIsLastWrites(es, n - 1);
      StepReflects(After(es, n - 1), LogAfter(es, n - 1), es[n - 1]);
    }
  }

  lemma StepReflects(o: OtaFields, log: Log, e: Event)
    requires Valid(o) && Reflects(o, log)
    ensures Reflects(Apply(o, e), LogStep(o, log, e))
  {
    if AcceptsChunk(o, e) {
      WriteReflects(o, log, e.payload);
    }
  }

  lemma LastByteOf(ws: seq<Write>, w: Write, i: nat)
    ensures LastByte(ws + [w], i) == if Covers(w, i) then w.data[i - w.offset] else LastByte(ws, i)
  {
    assert (ws + [w])[..|ws|] == ws;
  }

  lemma SumOf(ws: seq<Write>, w: Write)
    ensures SumLengths(ws + [w]) == SumLengths(ws) + |w.data|
  {
    assert (ws + [w])[..|ws|] == ws;
  }

  lemma WrappedSum(count: nat, sum: nat, length: nat)
    requires count == sum % 0x1_0000_0000
    ensures (count + length) % 0x1_0000_0000 == (sum + length) % 0x1_0000_0000
  {}

  /** One more write in a buffer of the right size. */
  lemma WriteKeepsBytes(buffer: seq<byte>, ws: seq<Write>, w: Write)
    requires w.offset + |w.data| <= |buffer| && forall i :: 0 <= i < |buffer| ==> buffer[i] == LastByte(ws, i)
    ensures
      var written := Overlay(buffer, w.offset, w.data);
      forall i :: 0 <= i < |written| ==> written[i] == LastByte(ws + [w], i)
  {
    var written := Overlay(buffer, w.offset, w.data);
    forall i | 0 <= i < |written|
      ensures written[i] == LastByte(ws + [w], i)
    {
      LastByteOf(ws, w, i);
    }
  }

  lemma WriteReflects(o: OtaFields, log: Log, payload: seq<byte>)
    requires Valid(o) && Reflects(o, log) && ChunkAccepted(o, payload)
    ensures Reflects(Chunk(o, payload), Log(log.total, log.writes + [Write(U32At(payload, 0), payload[4..])]))
  {
    var w := Write(U32At(payload, 0), payload[4..]);
    WriteKeepsBytes(o.buffer, log.writes, w);
    forall v | v in log.writes + [w]
      ensures 0 < |v.data| && v.offset + |v.data| <= log.total
    {
      assert v in log.writes || v == w;
    }
    SumOf(log.writes, w);
    WrappedSum(o.bytesReceived, SumLengths(log.writes), |w.data|);
  }
}
