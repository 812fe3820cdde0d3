/**
 * The second copy of the OTA machine, in host-tests/src/mock_host.rs, and how far it is the first.
 */
module MockOta {
  import opened Wrappers
  import opened AbiStatus
  import opened Bytes
  import opened Crc
  import opened Ota

  /** `usize::MAX` on the 64-bit test host. */
  const HOST_USIZE_MAX := 0xFFFF_FFFF_FFFF_FFFF

  datatype MockFields = MockFields(
    state: OtaState, buffer: seq<byte>, expectedSize: u32, bytesReceived: u32, swapCount: u32,
    paused: bool, active: seq<byte>)

  ghost predicate ValidMock(m: MockFields) {
    |m.buffer| == m.expectedSize <= MAX_BINARY_SIZE && m.state != Swapping
  }

  function NewMock(): (m: MockFields)
    ensures ValidMock(m)
  {
    MockFields(Idle, [], 0, 0, 0, false, [])
  }

  function BeginStatus(total: u32): i32 { if GoodSize(total) then OK else ERR_INVALID_ARG }

  function MockBegin(m: MockFields, total: u32): (r: MockFields)
    requires ValidMock(m)
    ensures ValidMock(r)
  {
    if !GoodSize(total) then m
    else m.(state := Receiving, expectedSize := total, bytesReceived := 0, buffer := Zeroed(total))
  }

  function ChunkStatus(m: MockFields, offset: u32, data: seq<byte>): i32 {
    if m.state != Receiving then ERR_BUSY
    else if data == [] then ERR_INVALID_ARG
    else if !ChunkInRange(offset, |data|, m.expectedSize) then ERR_BOUNDS
    else OK
  }

  function MockChunk(m: MockFields, offset: u32, data: seq<byte>): (r: MockFields)
    requires ValidMock(m)
    ensures ValidMock(r)
  {
    if ChunkStatus(m, offset, data) != OK then m
    else m.(buffer := Overlay(m.buffer, offset, data),
            bytesReceived := (m.bytesReceived + |data|) % 0x1_0000_0000)
  }

  function FinalizeStatus(m: MockFields, crc: u32): i32 {
    if m.state != Receiving then ERR_BUSY else if Crc32(m.buffer) != crc then ERR_INVALID_ARG else OK
  }

  function MockFinalize(m: MockFields, crc: u32): (r: MockFields)
    requires ValidMock(m)
    ensures ValidMock(r)
  {
    if m.state != Receiving then m
    else m.(state := if FinalizeStatus(m, crc) == OK then Ready else Failed)
  }

  function MockSwap(m: MockFields): (r: MockFields)
    requires ValidMock(m)
    ensures ValidMock(r)
  {
    if m.state != Ready then m
    else MockFields(Idle, [], 0, 0, (m.swapCount + 1) % 0x1_0000_0000, false, m.buffer)
  }

  /** The OTA part of `MockHost`. */
  class MockHost {
    var otaState: OtaState
    var otaBuffer: seq<byte>
    var otaExpectedSize: u32
    var otaBytesReceived: u32
    var hotSwapCount: u32
    var vmPaused: bool
    var activeWasmBinary: seq<byte>

    ghost function Value(): MockFields
      reads this
    {
      MockFields(otaState, otaBuffer, otaExpectedSize, otaBytesReceived, hotSwapCount, vmPaused, activeWasmBinary)
    }

    constructor ()
      ensures Value() == NewMock()
    {
      otaState, otaBuffer, otaExpectedSize, otaBytesReceived := Idle, [], 0, 0;
      hotSwapCount, vmPaused, activeWasmBinary := 0, false, [];
    }

    method OtaBegin(total: u32) returns (status: i32)
      requires ValidMock(Value())
      modifies this
      ensures Value() == MockBegin(old(Value()), total)
      ensures status == BeginStatus(total)
      ensures status == if 0 < total <= 524288 then 0 else 2
      ensures status == 0 ==> otaState == Receiving && otaBytesReceived == 0 && |otaBuffer| == otaExpectedSize == total
      ensures status == 0 ==> forall i :: 0 <= i < total ==> otaBuffer[i] == 0
      ensures status != 0 ==> unchanged(this)
      ensures unchanged(this`hotSwapCount, this`vmPaused, this`activeWasmBinary)
    {
      if total == 0 || total > MAX_BINARY_SIZE {
        return ERR_INVALID_ARG;
      }
      if otaState == Swapping {
        return ERR_BUSY;
      }
      otaState := Receiving;
      otaExpectedSize := total;
      otaBytesReceived := 0;
      otaBuffer := Zeroed(total);
      status := OK;
    }

    method OtaReceiveChunk(offset: u32, data: seq<byte>) returns (status: i32)
      requires ValidMock(Value())
      modifies this
      ensures Value() == MockChunk(old(Value()), offset, data)
      ensures status == ChunkStatus(old(Value()), offset, data)
      ensures status ==
        if old(otaState) != Receiving then 3 else if data == [] then 2
        else if offset + |data| > old(otaExpectedSize) then 5 else 0
      ensures status == 0 ==>
        && otaBytesReceived == (old(otaBytesReceived) + |data|) % 0x1_0000_0000
        && otaBuffer == old(otaBuffer)[..offset] + data + old(otaBuffer)[offset + |data|..]
      ensures status != 0 ==> unchanged(this)
      ensures unchanged(this`otaState, this`otaExpectedSize, this`hotSwapCount, this`vmPaused, this`activeWasmBinary)
    {
      if otaState != Receiving {
        return ERR_BUSY;
      }
      if data == [] {
        return ERR_INVALID_ARG;
      }
      var end := SaturatingAdd(offset, |data|, HOST_USIZE_MAX);
      if end > otaExpectedSize {
        return ERR_BOUNDS;
      }
      otaBuffer := otaBuffer[..offset] + data + otaBuffer[end..];
      otaBytesReceived := (otaBytesReceived + |data|) % 0x1_0000_0000;
      status := OK;
    }

    method OtaFinalize(crc: u32) returns (status: i32)
      requires ValidMock(Value())
      modifies this
      ensures Value() == MockFinalize(old(Value()), crc)
      ensures status == FinalizeStatus(old(Value()), crc)
      ensures status == if old(otaState) != Receiving then 3 else if Crc32(otaBuffer) == crc then 0 else 2
      ensures otaState == if status == 3 then old(otaState) else if status == 0 then Ready else Failed
      ensures unchanged(this`otaBuffer, this`otaExpectedSize, this`otaBytesReceived, this`hotSwapCount, this`vmPaused,
                        this`activeWasmBinary)
    {
      if otaState != Receiving {
        return ERR_BUSY;
      }
      var actual := ComputeCrc32(otaBuffer);
      if actual != crc {
        otaState := Failed;
        return ERR_INVALID_ARG;
      }
      otaState := Ready;
      status := OK;
    }

    method HotSwapWasm() returns (status: i32)
      requires ValidMock(Value())
      modifies this
      ensures Value() == MockSwap(old(Value()))
      ensures status == if old(otaState) == Ready then 0 else 3
      ensures status == 0 ==>
        && activeWasmBinary == old(otaBuffer) && otaState == Idle && otaBuffer == []
        && otaExpectedSize == otaBytesReceived == 0 && !vmPaused
        && hotSwapCount == (old(hotSwapCount) + 1) % 0x1_0000_0000
      ensures status != 0 ==> unchanged(this)
    {
      if otaState != Ready {
        return ERR_BUSY;
      }
      vmPaused := true;
      otaState := Swapping;
      activeWasmBinary := [];
      activeWasmBinary := otaBuffer;
      otaBuffer := [];
      vmPaused := false;
      hotSwapCount := (hotSwapCount + 1) % 0x1_0000_0000;
      otaState := Idle;
      otaExpectedSize := 0;
      otaBytesReceived := 0;
      status := OK;
    }
  }

  // ── Both machines on one run ──────────────────────────────────────────────

  /** A command as the sender means it; `ShortPayload` is one with too few bytes to be parsed. */
  datatype Cmd =
    | BeginCmd(total: u32)
    | ChunkCmd(offset: u32, data: seq<byte>)
    | FinalizeCmd(crc: u32)
    | SwapCmd
    | ShortPayload(id: byte, payload: seq<byte>)

  predicate WellFormed(c: Cmd) { c.ShortPayload? ==> IsOtaCommand(c.id) && |c.payload| < 4 }

  function FirmwareStep(o: OtaFields, c: Cmd): (r: OtaFields)
    requires Valid(o)
    ensures Valid(r)
  {
    match c
    case BeginCmd(total) => Command(o, OTA_BEGIN, Le(total, 4))
    case ChunkCmd(offset, data) => Command(o, OTA_CHUNK, Le(offset, 4) + data)
    case FinalizeCmd(crc) => Command(o, OTA_FINALIZE, Le(crc, 4))
    case SwapCmd => Take(o)
    case ShortPayload(id, payload) => Command(o, id, payload)
  }

  function MockStep(m: MockFields, c: Cmd): (r: MockFields)
    requires ValidMock(m)
    ensures ValidMock(r)
  {
    match c
    case BeginCmd(total) => MockBegin(m, total)
    case ChunkCmd(offset, data) => MockChunk(m, offset, data)
    case FinalizeCmd(crc) => MockFinalize(m, crc)
    case SwapCmd => MockSwap(m)
    case ShortPayload(_, _) => m
  }

  ghost predicate Agree(o: OtaFields, m: MockFields) {
    && o.state == m.state && o.buffer == m.buffer && o.totalSize == m.expectedSize
    && o.bytesReceived == m.bytesReceived && o.swapCount == m.swapCount
  }

  /** The commands on which the firmware fails the session and the mock refuses without a change. */
  predicate Diverges(o: OtaFields, c: Cmd) {
    match c
    case BeginCmd(total) => !GoodSize(total) && o.state != Failed
    case ChunkCmd(offset, data) => o.state == Receiving && data != [] && !ChunkInRange(offset, |data|, o.totalSize)
    case ShortPayload(id, _) => (id == OTA_BEGIN && o.state != Failed) || (id == OTA_FINALIZE && o.state == Receiving)
    case _ => false
  }

  lemma PayloadsParse(v: u32, data: seq<byte>)
    ensures U32At(Le(v, 4), 0) == v
    ensures U32At(Le(v, 4) + data, 0) == v && (Le(v, 4) + data)[4..] == data
  {
    U32RoundTrip(v, []);
    assert Le(v, 4) + [] == Le(v, 4);
    U32RoundTrip(v, data);
  }

  /** One command keeps the agreement exactly when it is not one of the diverging ones. */
  lemma StepAgreement(o: OtaFields, m: MockFields, c: Cmd)
    requires Valid(o) && ValidMock(m) && Agree(o, m) && WellFormed(c)
    ensures Agree(FirmwareStep(o, c), MockStep(m, c)) <==> !Diverges(o, c)
  {
    match c
    case BeginCmd(total) => PayloadsParse(total, []);
    case ChunkCmd(offset, data) => PayloadsParse(offset, data);
    case FinalizeCmd(crc) => PayloadsParse(crc, []);
    case _ =>
  }

  /** Both hand over the same binary. */
  lemma SameHandOver(o: OtaFields, m: MockFields)
    requires Valid(o) && ValidMock(m) && Agree(o, m)
    ensures MockSwap(m).active == match Taken(o) { case Some(b) => b case None => m.active }
  {}

  function FirmwareAfter(cs: seq<Cmd>, n: nat): (o: OtaFields)
    requires n <= |cs|
    ensures Valid(o)
  {
    if n == 0 then New() else FirmwareStep(FirmwareAfter(cs, n - 1), cs[n - 1])
  }

  function MockAfter(cs: seq<Cmd>, n: nat): (m: MockFields)
    requires n <= |cs|
    ensures ValidMock(m)
  {
    if n == 0 then NewMock() else MockStep(MockAfter(cs, n - 1), cs[n - 1])
  }

  ghost predicate AgreeAfter(cs: seq<Cmd>, n: nat)
    requires n <= |cs|
  {
    Agree(FirmwareAfter(cs, n), MockAfter(cs, n))
  }

  ghost predicate DivergesAt(cs: seq<Cmd>, n: nat)
    requires n < |cs|
  {
    Diverges(FirmwareAfter(cs, n), cs[n])
  }

  /** Every run: the machines agree after every command up to the first diverging one, and not after it. */
  lemma {:induction false} Lockstep(cs: seq<Cmd>, n: nat)
    requires n <= |cs| && forall c :: c in cs ==> WellFormed(c)
    requires forall k :: 0 <= k < n ==> !DivergesAt(cs, k)
    ensures AgreeAfter(cs, n)
    ensures n < |cs| ==> (AgreeAfter(cs, n + 1) <==> !DivergesAt(cs, n))
  {
    if n > 0 {
      Lockstep(cs, n - 1);
      assert !DivergesAt(cs, n - 1);
    }
    if n < |cs| {
      StepAgreement(FirmwareAfter(cs, n), MockAfter(cs, n), cs[n]);
    }
  }

  lemma SwapCountStep(o: OtaFields, m: MockFields, c: Cmd, o': OtaFields, m': MockFields)
    requires Valid(o) && ValidMock(m) && !c.SwapCmd? && SameCounts(o, m)
    requires o' == FirmwareStep(o, c) && m' == MockStep(m, c)
    ensures SameCounts(o', m')
  {}

  ghost predicate SameCounts(o: OtaFields, m: MockFields) { o.swapCount == m.swapCount }

  lemma {:induction false} SwapCountsKept(cs: seq<Cmd>, from: nat, n: nat)
    requires from <= n <= |cs| && AgreeAfter(cs, from)
    requires forall k :: from <= k < n ==> !cs[k].SwapCmd?
    ensures SameCounts(FirmwareAfter(cs, n), MockAfter(cs, n))
  {
    if n > from {
      SwapCountsKept(cs, from, n - 1);
      SwapCountStep(FirmwareAfter(cs, n - 1), MockAfter(cs, n - 1), cs[n - 1], FirmwareAfter(cs, n), MockAfter(cs, n));
    }
  }

  /** However the fields differ, a begin of a good size brings agreement exactly when the swap counts do. */
  lemma BeginResynchronises(o: OtaFields, m: MockFields, total: u32)
    requires Valid(o) && ValidMock(m) && GoodSize(total)
    ensures Agree(FirmwareStep(o, BeginCmd(total)), MockStep(m, BeginCmd(total))) <==> o.swapCount == m.swapCount
  {
    PayloadsParse(total, []);
  }

  /** After any divergence, the next begin of a good size brings agreement back if no swap came between. */
  lemma Resync(cs: seq<Cmd>, from: nat, n: nat)
    requires from <= n < |cs| && AgreeAfter(cs, from)
    requires forall k :: from <= k < n ==> !cs[k].SwapCmd?
    requires cs[n].BeginCmd? && GoodSize(cs[n].total)
    ensures AgreeAfter(cs, n + 1)
  {
    SwapCountsKept(cs, from, n);
    BeginResynchronises(FirmwareAfter(cs, n), MockAfter(cs, n), cs[n].total);
  }
}
