/**
 * The frame handler of firmware/src/core0/espnow.rs: the header check, the radio-link timestamp, the OTA
 * intercept with its swap signal, and the bounded command queue to the Wasm engine.
 */
module EspNow {
  import opened Wrappers
  import opened Bytes
  import opened Crc
  import opened Ota

  const MAGIC0: byte := 0x5A
  const MAGIC1: byte := 0x4E
  const ESPNOW_MAX_PAYLOAD := 250
  const MAX_BODY := ESPNOW_MAX_PAYLOAD - 4
  const CMD_QUEUE_DEPTH := 8
  const WASM_PAYLOAD := 64
  const RADIO_SILENCE_THRESHOLD_MS := 3000

  datatype WasmCommand = WasmCommand(id: byte, payload: seq<byte>)

  datatype Radio = Radio(ota: OtaFields, lastRxMs: u64, queue: seq<WasmCommand>, signal: Option<u32>)

  ghost predicate ValidRadio(r: Radio) { Valid(r.ota) && |r.queue| <= CMD_QUEUE_DEPTH }

  function Boot(): Radio { Radio(New(), 0, [], None) }

  predicate FrameValid(data: seq<byte>) {
    |data| >= 4 && data[0] == MAGIC0 && data[1] == MAGIC1 && data[3] <= MAX_BODY && 4 + data[3] <= |data|
  }

  function Body(data: seq<byte>): seq<byte>
    requires FrameValid(data)
  {
    data[4..4 + data[3]]
  }

  /** What the frame makes the handler signal: the length of the binary that is ready after a finalise. */
  function Signalled(r: Radio, data: seq<byte>): (s: Option<u32>)
    requires ValidRadio(r)
  {
    if !FrameValid(data) || data[2] != OTA_FINALIZE then None
    else
      match Taken(Command(r.ota, OTA_FINALIZE, Body(data)))
      case None => None
      case Some(binary) => Some(|binary|)
  }

  function Enqueue(queue: seq<WasmCommand>, c: WasmCommand): seq<WasmCommand> {
    if |queue| < CMD_QUEUE_DEPTH then queue + [c] else queue
  }

  function Truncated(s: seq<byte>, n: nat): seq<byte> { if |s| <= n then s else s[..n] }

  function Handle(r: Radio, data: seq<byte>, now: u64): (s: Radio)
    requires ValidRadio(r)
    ensures ValidRadio(s)
  {
    if !FrameValid(data) then r
    else if IsOtaCommand(data[2]) then
      r.(ota := Command(r.ota, data[2], Body(data)), lastRxMs := now,
         signal := if Signalled(r, data).Some? then Signalled(r, data) else r.signal)
    else
      r.(lastRxMs := now,
         queue := Enqueue(r.queue, WasmCommand(data[2], Truncated(Body(data), WASM_PAYLOAD))))
  }

  /** The header in its bytes: magic, and no more payload than the frame has. */
  predicate HeaderFits(data: seq<byte>) {
    |data| >= 4 && data[0] == 0x5A && data[1] == 0x4E && data[3] <= 246 && 4 + data[3] <= |data|
  }

  /** A frame for the Wasm engine: any command id but the three of an OTA transfer. */
  predicate CommandFrame(data: seq<byte>) { HeaderFits(data) && !(0x50 <= data[2] <= 0x52) }

  function CommandIn(data: seq<byte>): WasmCommand
    requires CommandFrame(data)
  {
    WasmCommand(data[2], data[4..4 + (if data[3] <= 64 then data[3] else 64)])
  }

  /** What a frame does to the timestamp and the queue, in its bytes. */
  lemma HandledBytes(r: Radio, data: seq<byte>, now: u64)
    requires ValidRadio(r)
    ensures Handle(r, data, now).lastRxMs == if HeaderFits(data) then now else r.lastRxMs
    ensures Handle(r, data, now).queue ==
      if CommandFrame(data) && |r.queue| < 8 then r.queue + [CommandIn(data)] else r.queue
  {
    if CommandFrame(data) {
      assert CommandIn(data).payload == Truncated(Body(data), WASM_PAYLOAD);
    }
  }

  function SaturatingSub(a: nat, b: nat): nat { if a < b then 0 else a - b }

  /** `is_radio_link_alive` for the stored timestamp of the last valid frame. */
  predicate LinkAliveAt(lastRxMs: u64, now: nat) { SaturatingSub(now, lastRxMs) < RADIO_SILENCE_THRESHOLD_MS }

  class EspNowTask {
    const ota: OtaReceiver
    var lastRxMs: u64
    var queue: seq<WasmCommand>
    var signal: Option<u32>

    ghost function Value(): Radio
      reads this, ota
    {
      Radio(ota.Value(), lastRxMs, queue, signal)
    }

    constructor ()
      ensures Value() == Boot() && fresh(ota)
    {
      ota := new OtaReceiver();
      lastRxMs, queue, signal := 0, [], None;
    }

    method HandleFrame(data: seq<byte>, now: u64)
      requires ValidRadio(Value())
      modifies this, ota
      ensures Value() == Handle(old(Value()), data, now)
      ensures lastRxMs == if HeaderFits(data) then now else old(lastRxMs)
      ensures queue ==
        if CommandFrame(data) && |old(queue)| < 8 then old(queue) + [CommandIn(data)] else old(queue)
    {
      HandledBytes(Value(), data, now);
      if |data| < 4 {
        return;
      }
      if data[0] != MAGIC0 || data[1] != MAGIC1 {
        return;
      }
      var cmdId := data[2];
      var payloadLen := data[3];
      if payloadLen > MAX_BODY || 4 + payloadLen > |data| {
        return;
      }
      var body := data[4..4 + payloadLen];
      lastRxMs := now;
      var handled := ota.HandleCommand(cmdId, body);
      if handled {
        if cmdId == OTA_FINALIZE {
          var ready := ota.ReadyBinary();
          if ready.Some? {
            signal := Some(|ready.value|);
          }
        }
        return;
      }
      assert body[..|body|] == body;
      var copyLen := if |body| < WASM_PAYLOAD then |body| else WASM_PAYLOAD;
      if |queue| < CMD_QUEUE_DEPTH {
        queue := queue + [WasmCommand(cmdId, body[..copyLen])];
      }
    }

    /** The Wasm task's receive: the command at the front, if one waits. */
    method TakeCommand() returns (c: Option<WasmCommand>)
      requires ValidRadio(Value())
      modifies this`queue
      ensures Value() == RadioStep(old(Value()), Deliver)
      ensures old(queue) == (if c.Some? then [c.value] else []) + queue
      ensures c.None? ==> queue == []
    {
      if |queue| == 0 {
        return None;
      }
      c := Some(queue[0]);
      queue := queue[1..];
    }
  }

  // ── When the swap signal fires ────────────────────────────────────────────

  /**
   * The signal fires on a well-formed finalise that is accepted, and also on any finalise, even a refused
   * one, that finds a verified binary still waiting.
   */
  lemma SignalCondition(r: Radio, data: seq<byte>)
    requires ValidRadio(r)
    ensures Signalled(r, data).Some? <==>
      && FrameValid(data) && data[2] == OTA_FINALIZE
      && (r.ota.state == Ready || FinalizeAccepted(r.ota, Body(data)))
  {}

  // ── Whole runs of the radio ───────────────────────────────────────────────

  /** A frame arrives, the binary is taken for a swap, a failed session is cleared, the Wasm task receives. */
  datatype RadioEvent = Frame(data: seq<byte>, at: u64) | Swap | Clear | Deliver

  function RadioStep(r: Radio, e: RadioEvent): (s: Radio)
    requires ValidRadio(r)
    ensures ValidRadio(s)
  {
    match e
    case Frame(data, at) => Handle(r, data, at)
    case Swap => r.(ota := Take(r.ota))
    case Clear => r.(ota := ResetFailed(r.ota))
    case Deliver => if |r.queue| > 0 then r.(queue := r.queue[1..]) else r
  }

  function RadioAfter(es: seq<RadioEvent>, n: nat): (r: Radio)
    requires n <= |es|
    ensures ValidRadio(r)
  {
    if n == 0 then Boot() else RadioStep(RadioAfter(es, n - 1), es[n - 1])
  }

  /** The command the OTA receiver gets to see of a radio event, if any. */
  function OtaEventOf(e: RadioEvent): (es: seq<Event>)
    ensures |es| <= 1
  {
    match e
    case Swap => [TakeBinary]
    case Clear => [Event.Reset]
    case Deliver => []
    case Frame(data, _) =>
      if FrameValid(data) && IsOtaCommand(data[2]) then [Receive(data[2], Body(data))] else []
  }

  function OtaEvents(es: seq<RadioEvent>, n: nat): seq<Event>
    requires n <= |es|
  {
    if n == 0 then [] else OtaEvents(es, n - 1) + OtaEventOf(es[n - 1])
  }

  lemma RadioStepOta(r: Radio, e: RadioEvent)
    requires ValidRadio(r)
    ensures RadioStep(r, e).ota == if OtaEventOf(e) == [] then r.ota else Apply(r.ota, OtaEventOf(e)[0])
  {}

  lemma {:induction false} AfterExtends(es: seq<Event>, more: seq<Event>, n: nat)
    requires n <= |es|
    ensures After(es + more, n) == After(es, n)
  {
    if n > 0 {
      AfterExtends(es, more, n - 1);
      assert (es + more)[n - 1] == es[n - 1];
    }
  }

  lemma AfterNext(run: seq<Event>, n: nat, o: OtaFields, end: OtaFields)
    requires n + 1 == |run| && o == After(run, n) && end == After(run, |run|)
    ensures end == Apply(o, run[n])
  {}

  lemma AfterOneMore(es: seq<Event>, e: Event, o: OtaFields, run: seq<Event>)
    requires o == After(es, |es|) && run == es + [e]
    ensures Apply(o, e) == After(run, |run|)
  {
    AfterExtends(es, [e], |es|);
    AfterNext(run, |es|, o, After(run, |run|));
  }

  lemma ExtendedRun(before: seq<Event>, seen: seq<Event>, o: OtaFields, o': OtaFields)
    requires o == After(before, |before|) && |seen| <= 1
    requires o' == if seen == [] then o else Apply(o, seen[0])
    ensures o' == After(before + seen, |before + seen|)
  {
    if seen == [] {
      assert before + seen == before;
    } else {
      AfterOneMore(before, seen[0], o, before + seen);
    }
  }

  lemma StepExtendsRun(before: seq<Event>, r: Radio, e: RadioEvent)
    requires ValidRadio(r) && r.ota == After(before, |before|)
    ensures
      var run := before + OtaEventOf(e);
      RadioStep(r, e).ota == After(run, |run|)
  {
    RadioStepOta(r, e);
    ExtendedRun(before, OtaEventOf(e), r.ota, RadioStep(r, e).ota);
  }

  /** The receiver inside the radio task runs exactly the commands of the valid OTA frames. */
  lemma {:induction false} RadioRunsOta(es: seq<RadioEvent>, n: nat)
    requires n <= |es|
    ensures RadioAfter(es, n).ota == After(OtaEvents(es, n), |OtaEvents(es, n)|)
  {
    if n > 0 {
      RadioRunsOta(es, n - 1);
      StepExtendsRun(OtaEvents(es, n - 1), RadioAfter(es, n - 1), es[n - 1]);
    }
  }

  lemma SignalStep(r: Radio, data: seq<byte>, at: u64)
    requires ValidRadio(r) && Signalled(r, data).Some?
    ensures Taken(Handle(r, data, at).ota).Some?
    ensures Handle(r, data, at).signal == Some(|Taken(Handle(r, data, at).ota).value|)
  {}

  /** What is signalled is the length of what is ready. */
  predicate SignalsReady(r: Radio) { Taken(r.ota).Some? && r.signal == Some(|Taken(r.ota).value|) }

  /** Event `n` makes the handler signal. */
  ghost predicate SignalsAt(es: seq<RadioEvent>, n: nat)
    requires n < |es|
  {
    es[n].Frame? && Signalled(RadioAfter(es, n), es[n].data).Some?
  }

  lemma SignalAfter(es: seq<RadioEvent>, n: nat, r: Radio)
    requires n < |es| && SignalsAt(es, n) && r == RadioAfter(es, n + 1)
    ensures SignalsReady(r)
  {
    SignalStep(RadioAfter(es, n), es[n].data, es[n].at);
  }

  lemma RanAfter(es: seq<RadioEvent>, n: nat, r: Radio, seen: seq<Event>)
    requires n <= |es| && r == RadioAfter(es, n) && seen == OtaEvents(es, n)
    ensures r.ota == After(seen, |seen|)
  {
    RadioRunsOta(es, n);
  }

  lemma HandOverAfter(es: seq<Event>, o: OtaFields)
    requires o == After(es, |es|) && Taken(o).Some?
    ensures Verified(es, |es|, Taken(o).value)
  {
    HandOverIsVerified(es, |es|);
  }

  /** And that is verified by the commands seen. */
  ghost predicate SignalsVerified(r: Radio, seen: seq<Event>) {
    SignalsReady(r) && Verified(seen, |seen|, Taken(r.ota).value)
  }

  lemma SignalsHandOver(r: Radio, seen: seq<Event>)
    requires r.ota == After(seen, |seen|) && SignalsReady(r)
    ensures SignalsVerified(r, seen)
  {
    HandOverAfter(seen, r.ota);
  }

  /** In every run, a signal announces the length of a binary that an accepted finalise has verified. */
  lemma SignalIsVerified(es: seq<RadioEvent>, n: nat, r: Radio, seen: seq<Event>)
    requires n < |es| && SignalsAt(es, n) && r == RadioAfter(es, n + 1) && seen == OtaEvents(es, n + 1)
    ensures SignalsVerified(r, seen)
  {
    SignalAfter(es, n, r);
    RanAfter(es, n + 1, r, seen);
    SignalsHandOver(r, seen);
  }

  // ── The commands for the Wasm engine ──────────────────────────────────────

  /** What one event takes from the front and what it adds. */
  function Front(queue: seq<WasmCommand>, e: RadioEvent): seq<WasmCommand> {
    if e.Deliver? && |queue| > 0 then [queue[0]] else []
  }

  function Found(waiting: int, e: RadioEvent): seq<WasmCommand> {
    if e.Frame? && CommandFrame(e.data) && waiting < 8 then [CommandIn(e.data)] else []
  }

  /** The commands of the frames for the Wasm engine that found fewer than eight waiting, in order. */
  function Accepted(es: seq<RadioEvent>, n: nat): seq<WasmCommand>
    requires n <= |es|
  {
    if n == 0 then []
    else
      Accepted(es, n - 1) + Found(|Accepted(es, n - 1)| - Received(es, n - 1), es[n - 1])
  }

  /** How many times the Wasm task found a command to receive. */
  function Received(es: seq<RadioEvent>, n: nat): nat
    requires n <= |es|
  {
    if n == 0 then 0
    else
      var before := Received(es, n - 1);
      if es[n - 1].Deliver? && before < |Accepted(es, n - 1)| then before + 1 else before
  }

  /** What it received. */
  function Delivered(es: seq<RadioEvent>, n: nat): seq<WasmCommand>
    requires n <= |es|
  {
    if n == 0 then []
    else Delivered(es, n - 1) + Front(RadioAfter(es, n - 1).queue, es[n - 1])
  }

  lemma QueueStep(r: Radio, e: RadioEvent)
    requires ValidRadio(r)
    ensures Front(r.queue, e) + RadioStep(r, e).queue == r.queue + Found(|r.queue|, e)
  {
    if e.Frame? {
      HandledBytes(r, e.data, e.at);
    }
  }

  lemma OneQueueStep(gone: seq<WasmCommand>, queue: seq<WasmCommand>, next: seq<WasmCommand>, e: RadioEvent)
    requires Front(queue, e) + next == queue + Found(|queue|, e)
    ensures (gone + Front(queue, e)) + next == (gone + queue) + Found(|queue|, e)
  {
    assert (gone + Front(queue, e)) + next == gone + (Front(queue, e) + next);
  }

  /** The two counts in terms of what has been received and what waits. */
  lemma OneMoreReceived(es: seq<RadioEvent>, n: nat, gone: seq<WasmCommand>, queue: seq<WasmCommand>)
    requires n < |es| && gone + queue == Accepted(es, n) && |gone| == Received(es, n)
    ensures Accepted(es, n + 1) == (gone + queue) + Found(|queue|, es[n])
    ensures Received(es, n + 1) == |gone + Front(queue, es[n])|
  {}

  /**
   * In every run the commands the Wasm task received, followed by those waiting, are exactly those of the
   * frames for it that found room, each with its id and its first 64 payload bytes, in their order.
   */
  lemma {:induction false} CommandsInOrder(es: seq<RadioEvent>, n: nat)
    requires n <= |es|
    ensures Delivered(es, n) + RadioAfter(es, n).queue == Accepted(es, n)
    ensures |Delivered(es, n)| == Received(es, n)
  {
    if n > 0 {
      CommandsInOrder(es, n - 1);
      QueueStep(RadioAfter(es, n - 1), es[n - 1]);
      OneQueueStep(Delivered(es, n - 1), RadioAfter(es, n - 1).queue, RadioAfter(es, n).queue, es[n - 1]);
      OneMoreReceived(es, n - 1, Delivered(es, n - 1), RadioAfter(es, n - 1).queue);
    }
  }

  // ── The radio link ────────────────────────────────────────────────────────

  predicate ReceivesValid(e: RadioEvent) { e.Frame? && FrameValid(e.data) }

  /** The first `n` frames come in the order of their times, none later than `now`. */
  ghost predicate InOrder(es: seq<RadioEvent>, n: nat, now: u64)
    requires n <= |es|
  {
    && (forall i, j :: 0 <= i < j < n && es[i].Frame? && es[j].Frame? ==> es[i].at <= es[j].at)
    && (forall i :: 0 <= i < n && es[i].Frame? ==> es[i].at <= now)
  }

  lemma {:induction false} LastRxIsLatest(es: seq<RadioEvent>, n: nat, now: u64)
    requires n <= |es| && InOrder(es, n, now)
    ensures forall k :: 0 <= k < n && ReceivesValid(es[k]) ==> es[k].at <= RadioAfter(es, n).lastRxMs
    ensures RadioAfter(es, n).lastRxMs <= now
    ensures RadioAfter(es, n).lastRxMs == 0
         || exists k :: 0 <= k < n && ReceivesValid(es[k]) && es[k].at == RadioAfter(es, n).lastRxMs
  {
    if n > 0 {
      LastRxIsLatest(es, n - 1, now);
      LastRxStep(RadioAfter(es, n - 1), es[n - 1]);
    }
  }

  lemma LastRxStep(r: Radio, e: RadioEvent)
    requires ValidRadio(r)
    ensures RadioStep(r, e).lastRxMs == if ReceivesValid(e) then e.at else r.lastRxMs
  {}

  /**
   * The link counts as alive exactly when a valid frame came within the last three seconds, or the uptime
   * itself is below three seconds: it does not start silent.
   */
  lemma {:induction false} LinkAliveMeaning(es: seq<RadioEvent>, n: nat, now: u64)
    requires n <= |es| && InOrder(es, n, now)
    ensures LinkAliveAt(RadioAfter(es, n).lastRxMs, now) <==>
      || now < RADIO_SILENCE_THRESHOLD_MS
      || exists k :: 0 <= k < n && ReceivesValid(es[k]) && now - es[k].at < RADIO_SILENCE_THRESHOLD_MS
  {
    LastRxIsLatest(es, n, now);
  }
}
