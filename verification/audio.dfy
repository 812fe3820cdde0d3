/**
 * The audio path into guest memory: the capture buffer (firmware/src/core0/abi.rs, host-tests/src/mock_host.rs)
 * and the host calls that copy to and from guest memory (firmware/src/core0/wasm_vm.rs).
 */
module Audio {
  import opened Wrappers
  import opened AbiStatus
  import opened Bytes
  import opened Codec

  const MAX_AUDIO_READ := 1024
  const MAX_TEXT_BYTES := 256
  /** Guest memories stay below this, so a valid pointer is never negative as an `i32`. */
  const MEMORY_LIMIT := 0x8000_0000

  // ── Pointer checks ────────────────────────────────────────────────────────

  function CheckedAddU32(a: u32, b: u32): Option<u32> { if a + b < 0x1_0000_0000 then Some(a + b) else None }

  /** `validate_ptr_len(..).is_ok()`. */
  predicate ValidRegion(ptr: u32, length: u32, memorySize: u32) {
    match CheckedAddU32(ptr, length)
    case Some(end) => end <= memorySize
    case None => false
  }

  /**
   * For guest memories below 2^31 bytes and all `i32` arguments: what passes is exactly a region inside
   * the memory with non-negative bounds, and adding them as `i32` does not overflow.
   */
  lemma ValidRegionMeaning(ptr: i32, length: i32, memorySize: u32)
    requires memorySize < MEMORY_LIMIT
    ensures ValidRegion(I32Bits(ptr), I32Bits(length), memorySize)
       <==> ptr >= 0 && length >= 0 && ptr + length <= memorySize
  {}

  // ── Capture ───────────────────────────────────────────────────────────────

  predicate ReadAccepted(ptr: i32, maxLen: i32, memorySize: u32) {
    ValidRegion(I32Bits(ptr), I32Bits(maxLen), memorySize) && I32Bits(maxLen) <= MAX_AUDIO_READ
  }

  class AudioHost {
    var audioActive: bool
    var audioBuf: seq<byte>
    // What was fed and delivered since the last start.
    ghost var fed: seq<byte>
    ghost var delivered: seq<byte>

    /** With the guest memory, a state of the runs below. */
    ghost function Value(mem: seq<byte>): State
      reads this
    {
      State(audioBuf, mem, fed, delivered)
    }

    constructor ()
      ensures !audioActive && audioBuf == fed == delivered == []
    {
      audioActive, audioBuf, fed, delivered := false, [], [], [];
    }

    method StartAudioCapture()
      modifies this
      ensures audioActive
      ensures forall mem: seq<byte> | |mem| < MEMORY_LIMIT :: Value(mem) == Step(old(Value(mem)), Start)
    {
      audioActive := true;
      audioBuf, fed, delivered := [], [], [];
    }

    method FeedAudio(data: seq<byte>)
      modifies this
      ensures audioActive == old(audioActive)
      ensures forall mem: seq<byte> | |mem| < MEMORY_LIMIT :: Value(mem) == Step(old(Value(mem)), Feed(data))
    {
      audioBuf, fed := audioBuf + data, fed + data;
    }

    /** Pops into `out` until it is full or the buffer is empty. */
    method ReadAudio(out: array<byte>) returns (n: i32)
      requires out.Length < MEMORY_LIMIT
      modifies this`audioBuf, out
      ensures out.Length > MAX_AUDIO_READ ==> n == ERR_BOUNDS && audioBuf == old(audioBuf) && out[..] == old(out[..])
      ensures out.Length <= MAX_AUDIO_READ ==>
        && n == Min(out.Length, |old(audioBuf)|)
        && audioBuf == old(audioBuf)[n..]
        && out[..n] == old(audioBuf)[..n] && out[n..] == old(out[n..])
    {
      if out.Length > MAX_AUDIO_READ {
        return ERR_BOUNDS;
      }
      var count := Min(out.Length, |audioBuf|);
      ghost var buffered, before := audioBuf, out[..];
      for k := 0 to count
        invariant audioBuf == buffered[k..]
        invariant out[..k] == buffered[..k] && out[k..] == before[k..]
      {
        out[k] := audioBuf[0];
        audioBuf := audioBuf[1..];
      }
      n := count;
    }

    /** The `host_read_audio` call: checks, a scratch buffer, and one copy into guest memory. */
    method HostReadAudio(mem: array<byte>, ptr: i32, maxLen: i32) returns (r: i32)
      requires mem.Length < MEMORY_LIMIT
      modifies this, mem
      ensures audioActive == old(audioActive)
      ensures Value(mem[..]) == Step(old(Value(mem[..])), Read(ptr, maxLen))
      ensures !ReadAccepted(ptr, maxLen, mem.Length) ==>
        r == ERR_BOUNDS && audioBuf == old(audioBuf) && mem[..] == old(mem[..])
      ensures ReadAccepted(ptr, maxLen, mem.Length) ==>
        && r == Min(maxLen, |old(audioBuf)|) && 0 <= ptr && ptr + r <= mem.Length
        && audioBuf == old(audioBuf)[r..]
        && mem[..] == Patched(old(mem[..]), ptr, old(audioBuf)[..r])
    {
      ValidRegionMeaning(ptr, maxLen, mem.Length);
      if !ValidRegion(I32Bits(ptr), I32Bits(maxLen), mem.Length) {
        return ERR_BOUNDS;
      }
      if I32Bits(maxLen) > MAX_AUDIO_READ {
        return ERR_BOUNDS;
      }
      var tmp := new byte[maxLen](_ => 0);
      var copied := ReadAudio(tmp);
      var _ := CopyInto(tmp[..copied], mem, ptr);
      delivered := delivered + tmp[..copied];
      r := copied;
    }
  }

  // ── Other host calls on guest memory ──────────────────────────────────────

  /** The slice `host_write_text` takes, with the end computed in `i32`; none when it refuses. */
  function TextSlice(mem: seq<byte>, ptr: i32, length: i32): (text: Option<seq<byte>>)
    requires |mem| < MEMORY_LIMIT
    ensures text.Some? <==> ptr >= 0 && 0 <= length <= 256 && ptr + length <= |mem|
    ensures text.Some? ==> text.value == mem[ptr..ptr + length]
  {
    ValidRegionMeaning(ptr, length, |mem|);
    if !ValidRegion(I32Bits(ptr), I32Bits(length), |mem|) then None
    else if I32Bits(length) > MAX_TEXT_BYTES then None
    else
      var end: i32 := ptr + length;
      Some(mem[ptr..end])
  }

  /** The `host_get_pitch_roll` call: both slots are checked before either is written; roll is written last. */
  method HostGetPitchRoll(mem: array<byte>, pitchPtr: i32, rollPtr: i32, pitch: i32, roll: i32) returns (r: i32)
    requires mem.Length < MEMORY_LIMIT
    modifies mem
    ensures r == OK <==>
      0 <= pitchPtr && pitchPtr + 4 <= mem.Length && 0 <= rollPtr && rollPtr + 4 <= mem.Length
    ensures r != OK ==> r == ERR_BOUNDS && mem[..] == old(mem[..])
    ensures r == OK ==>
      mem[..] == Patched(Patched(old(mem[..]), pitchPtr, Le(I32Bits(pitch), 4)), rollPtr, Le(I32Bits(roll), 4))
  {
    ValidRegionMeaning(pitchPtr, 4, mem.Length);
    ValidRegionMeaning(rollPtr, 4, mem.Length);
    if !ValidRegion(I32Bits(pitchPtr), 4, mem.Length) {
      return ERR_BOUNDS;
    }
    if !ValidRegion(I32Bits(rollPtr), 4, mem.Length) {
      return ERR_BOUNDS;
    }
    var _ := CopyInto(Le(I32Bits(pitch), 4), mem, pitchPtr);
    var _ := CopyInto(Le(I32Bits(roll), 4), mem, rollPtr);
    r := OK;
  }

  /** The slots then hold the two values, roll's the newer one where they overlap, and nothing else changed. */
  lemma SlotsHold(before: seq<byte>, pitchPtr: nat, rollPtr: nat, pitch: i32, roll: i32, i: nat)
    requires pitchPtr + 4 <= |before| && rollPtr + 4 <= |before| && i < |before|
    ensures
      var after := Patched(Patched(before, pitchPtr, Le(I32Bits(pitch), 4)), rollPtr, Le(I32Bits(roll), 4));
      && Number32(after, rollPtr) == roll % 0x1_0000_0000
      && (pitchPtr + 4 <= rollPtr || rollPtr + 4 <= pitchPtr ==> Number32(after, pitchPtr) == pitch % 0x1_0000_0000)
      && (!(pitchPtr <= i < pitchPtr + 4) && !(rollPtr <= i < rollPtr + 4) ==> after[i] == before[i])
  {
    var p, r := Le(I32Bits(pitch), 4), Le(I32Bits(roll), 4);
    var first := Patched(before, pitchPtr, p);
    PatchedNumber(before, pitchPtr, I32Bits(pitch));
    PatchedNumber(first, rollPtr, I32Bits(roll));
    if pitchPtr + 4 <= rollPtr || rollPtr + 4 <= pitchPtr {
      NumberKept(first, rollPtr, r, pitchPtr);
    }
    PatchedByte(before, pitchPtr, p, i);
    PatchedByte(first, rollPtr, r, i);
  }

  // ── Whole runs ────────────────────────────────────────────────────────────

  /** The buffer and the guest memory, with what was fed and delivered since the last start. */
  datatype State = State(buf: seq<byte>, mem: seq<byte>, fed: seq<byte>, delivered: seq<byte>)

  datatype Event = Start | Feed(data: seq<byte>) | Read(ptr: i32, maxLen: i32)

  function Step(s: State, e: Event): (t: State)
    requires |s.mem| < MEMORY_LIMIT
    ensures |t.mem| == |s.mem|
  {
    match e
    case Start => s.(buf := [], fed := [], delivered := [])
    case Feed(data) => s.(buf := s.buf + data, fed := s.fed + data)
    case Read(ptr, maxLen) =>
      if !ReadAccepted(ptr, maxLen, |s.mem|) then s
      else
        ValidRegionMeaning(ptr, maxLen, |s.mem|);
        var n := Min(maxLen, |s.buf|);
        s.(buf := s.buf[n..], delivered := s.delivered + s.buf[..n], mem := Patched(s.mem, ptr, s.buf[..n]))
  }

  function After(mem: seq<byte>, es: seq<Event>, n: nat): (s: State)
    requires |mem| < MEMORY_LIMIT && n <= |es|
    ensures |s.mem| == |mem|
  {
    if n == 0 then State([], mem, [], []) else Step(After(mem, es, n - 1), es[n - 1])
  }

  /** Everything fed is delivered or still in the buffer, in order. */
  predicate Split(s: State) { s.fed == s.delivered + s.buf }

  lemma StepSplits(s: State, e: Event)
    requires |s.mem| < MEMORY_LIMIT && Split(s)
    ensures Split(Step(s, e))
  {
    match e
    case Start =>
    case Feed(data) => assert s.delivered + s.buf + data == s.delivered + (s.buf + data);
    case Read(ptr, maxLen) =>
      if ReadAccepted(ptr, maxLen, |s.mem|) {
        ValidRegionMeaning(ptr, maxLen, |s.mem|);
        Moved(s.delivered, s.buf, Min(maxLen, |s.buf|));
      }
  }

  lemma Moved(a: seq<byte>, b: seq<byte>, n: nat)
    requires n <= |b|
    ensures a + b == a + b[..n] + b[n..]
  {
    assert b == b[..n] + b[n..];
  }

  /** In every run, what was delivered since the last start is a prefix of what was fed, the rest is buffered. */
  lemma {:induction false} DeliveredIsPrefixOfFed(mem: seq<byte>, es: seq<Event>, n: nat)
    requires |mem| < MEMORY_LIMIT && n <= |es|
    ensures var s := After(mem, es, n); s.fed == s.delivered + s.buf && s.delivered <= s.fed
  {
    if n > 0 {
      DeliveredIsPrefixOfFed(mem, es, n - 1);
      StepSplits(After(mem, es, n - 1), es[n - 1]);
    }
  }

  /** The addresses a read may touch. */
  predicate Requested(e: Event, i: nat) { e.Read? && e.ptr <= i < e.ptr + e.maxLen }

  /** In every run, a byte of guest memory outside every requested region is what it was at the start. */
  lemma {:induction false} OnlyRequestedBytesChange(mem: seq<byte>, es: seq<Event>, n: nat, i: nat)
    requires |mem| < MEMORY_LIMIT && n <= |es| && i < |mem|
    requires forall k :: 0 <= k < n ==> !Requested(es[k], i)
    ensures After(mem, es, n).mem[i] == mem[i]
  {
    if n > 0 {
      OnlyRequestedBytesChange(mem, es, n - 1, i);
      var e := es[n - 1];
      assert !Requested(e, i);
      if e.Read? {
        ValidRegionMeaning(e.ptr, e.maxLen, |mem|);
      }
    }
  }

  // ── What a read brings ────────────────────────────────────────────────────

  /** Everything fed since the last start, by the events alone. */
  function FedSince(es: seq<Event>, n: nat): seq<byte>
    requires n <= |es|
  {
    if n == 0 then []
    else
      match es[n - 1]
      case Start => []
      case Feed(data) => FedSince(es, n - 1) + data
      case Read(_, _) => FedSince(es, n - 1)
  }

  /** How much of it the reads have asked for and got, in a memory of `size` bytes. */
  function ReadSince(size: nat, es: seq<Event>, n: nat): (k: nat)
    requires n <= |es|
    ensures k <= |FedSince(es, n)|
  {
    if n == 0 then 0
    else
      match es[n - 1]
      case Start => 0
      case Feed(_) => ReadSince(size, es, n - 1)
      case Read(ptr, maxLen) =>
        var before := ReadSince(size, es, n - 1);
        if 0 <= ptr && 0 <= maxLen <= 1024 && ptr + maxLen <= size
        then Min(before + maxLen, |FedSince(es, n - 1)|)
        else before
  }

  /** The state in terms of what was fed and how much of it was read. */
  predicate Holds(s: State, fed: seq<byte>, read: nat) {
    read <= |fed| && s.fed == fed && s.buf == fed[read..] && s.delivered == fed[..read]
  }

  lemma StepHolds(s: State, e: Event, fed: seq<byte>, read: nat)
    requires |s.mem| < MEMORY_LIMIT && Holds(s, fed, read)
    ensures e.Start? ==> Holds(Step(s, e), [], 0)
    ensures e.Feed? ==> Holds(Step(s, e), fed + e.data, read)
    ensures e.Read? ==>
      && Holds(Step(s, e), fed, if ReadAccepted(e.ptr, e.maxLen, |s.mem|) then Min(read + e.maxLen, |fed|) else read)
      && (ReadAccepted(e.ptr, e.maxLen, |s.mem|) <==>
            0 <= e.ptr && 0 <= e.maxLen <= 1024 && e.ptr + e.maxLen <= |s.mem|)
  {
    if e.Read? {
      ValidRegionMeaning(e.ptr, e.maxLen, |s.mem|);
    }
  }

  /** In every run the buffer is the part fed since the last start that no read has got yet. */
  lemma {:induction false} BufferIsUnread(mem: seq<byte>, es: seq<Event>, n: nat)
    requires |mem| < MEMORY_LIMIT && n <= |es|
    ensures Holds(After(mem, es, n), FedSince(es, n), ReadSince(|mem|, es, n))
  {
    if n > 0 {
      BufferIsUnread(mem, es, n - 1);
      StepHolds(After(mem, es, n - 1), es[n - 1], FedSince(es, n - 1), ReadSince(|mem|, es, n - 1));
    }
  }

  /** `after` is `before` with the bytes `from..to` of `fed` at `ptr`. */
  ghost predicate Brings(before: seq<byte>, after: seq<byte>, ptr: int, fed: seq<byte>, from: nat, to: nat)
    requires from <= to <= |fed|
  {
    && |after| == |before|
    && forall i :: 0 <= i < |after| ==>
         after[i] == if ptr <= i < ptr + to - from then fed[from + i - ptr] else before[i]
  }

  lemma StepBrings(s: State, e: Event, fed: seq<byte>, from: nat, to: nat)
    requires |s.mem| < MEMORY_LIMIT && Holds(s, fed, from) && e.Read? && from <= to
    requires Holds(Step(s, e), fed, to)
    ensures Brings(s.mem, Step(s, e).mem, e.ptr, fed, from, to)
  {
    ValidRegionMeaning(e.ptr, e.maxLen, |s.mem|);
    assert |s.buf| - |Step(s, e).buf| == to - from;
  }

  /** A read of any run brings the next bytes fed to its pointer and changes nothing else in the memory. */
  lemma ReadBringsNext(mem: seq<byte>, es: seq<Event>, n: nat)
    requires |mem| < MEMORY_LIMIT && n < |es| && es[n].Read?
    ensures ReadSince(|mem|, es, n) <= ReadSince(|mem|, es, n + 1)
    ensures Brings(After(mem, es, n).mem, After(mem, es, n + 1).mem, es[n].ptr,
                   FedSince(es, n), ReadSince(|mem|, es, n), ReadSince(|mem|, es, n + 1))
  {
    BufferIsUnread(mem, es, n);
    BufferIsUnread(mem, es, n + 1);
    StepBrings(After(mem, es, n), es[n], FedSince(es, n), ReadSince(|mem|, es, n), ReadSince(|mem|, es, n + 1));
  }
}
