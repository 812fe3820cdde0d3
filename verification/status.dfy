/** The status records the guest reads (abi/src/lib.rs): OTA status and inference result as words in bytes. */
module Status {
  import opened Wrappers
  import opened Bytes
  import opened Codec
  import opened Ota
  import opened Inference

  // ── OTA status ────────────────────────────────────────────────────────────

  datatype OtaStatus = OtaStatus(state: OtaState, bytesReceived: u32, totalSize: u32, swapCount: u32)

  const STATUS_SIZE := 16

  function StateCode(s: OtaState): byte {
    match s
    case Idle => 0
    case Receiving => 1
    case Ready => 2
    case Swapping => 3
    case Failed => 4
  }

  function StateOf(code: byte): Option<OtaState> {
    if code == 0 then Some(Idle) else if code == 1 then Some(Receiving) else if code == 2 then Some(Ready)
    else if code == 3 then Some(Swapping) else if code == 4 then Some(Failed) else None
  }

  function StatusWords(s: OtaStatus): seq<u32> { [StateCode(s.state), s.bytesReceived, s.totalSize, s.swapCount] }

  function StatusToBytes(s: OtaStatus): (b: seq<byte>)
    ensures |b| == STATUS_SIZE
  {
    WordsSize4(StatusWords(s));
    Words(StatusWords(s), 4)
  }

  /** The state word is cut to its low byte before it is looked up. */
  function StatusFromBytes(b: seq<byte>): Option<OtaStatus> {
    if |b| < STATUS_SIZE then None
    else
      match StateOf(U32At(b, 0) % 256)
      case None => None
      case Some(state) => Some(OtaStatus(state, U32At(b, 4), U32At(b, 8), U32At(b, 12)))
  }

  lemma WordsReadBack(vs: seq<u32>, extra: seq<byte>, k: nat, at: nat)
    requires k < |vs| && at == 4 * k
    ensures |Words(vs, 4)| == 4 * |vs| && U32At(Words(vs, 4) + extra, at) == vs[k]
  {
    WordSlice(vs, k, at);
    var b := Words(vs, 4) + extra;
    assert b[at..at + 4] == Words(vs, 4)[at..at + 4];
    EncodedWord(b, at, vs[k]);
  }

  lemma EqualWords(vs: seq<u32>, b: seq<byte>, k: nat, at: nat)
    requires k < |vs| && at == 4 * k && Words(vs, 4) == b
    ensures |b| == 4 * |vs| && U32At(b, at) == vs[k]
  {
    WordsReadBack(vs, [], k, at);
    assert b + [] == b;
  }

  lemma CodeRoundTrip(code: byte)
    requires StateOf(code).Some?
    ensures StateCode(StateOf(code).value) == code
  {}

  lemma StatusRoundTrip(s: OtaStatus, extra: seq<byte>)
    ensures StatusFromBytes(StatusToBytes(s) + extra) == Some(s)
  {
    var vs := StatusWords(s);
    WordsReadBack(vs, extra, 0, 0);
    WordsReadBack(vs, extra, 1, 4);
    WordsReadBack(vs, extra, 2, 8);
    WordsReadBack(vs, extra, 3, 12);
  }

  /** What decodes: sixteen bytes of which the first is the code of a state. */
  lemma StatusDecodesExactly(b: seq<byte>)
    ensures StatusFromBytes(b).Some? <==> |b| >= 16 && b[0] <= 4
  {
    if |b| >= 16 {
      U32Bytes(b, 0);
      LowByte(b[0], b[1], b[2], b[3]);
    }
  }

  lemma LowByte(b0: byte, b1: byte, b2: byte, b3: byte)
    ensures
      var (x0: int, x1: int, x2: int, x3: int) := (b0, b1, b2, b3);
      (x0 + 0x100 * x1 + 0x1_0000 * x2 + 0x100_0000 * x3) % 256 == x0
  {}

  /** The words in their bytes: the state's code, the two sizes, the swap count. */
  lemma StatusLayout(s: OtaStatus)
    ensures
      var b := StatusToBytes(s);
      && Number32(b, 0) == (match s.state
           case Idle => 0 case Receiving => 1 case Ready => 2 case Swapping => 3 case Failed => 4)
      && Number32(b, 4) == s.bytesReceived && Number32(b, 8) == s.totalSize && Number32(b, 12) == s.swapCount
  {
    var vs, b := StatusWords(s), StatusToBytes(s);
    EqualWords(vs, b, 0, 0);
    EqualWords(vs, b, 1, 4);
    EqualWords(vs, b, 2, 8);
    EqualWords(vs, b, 3, 12);
    U32Bytes(b, 0);
    U32Bytes(b, 4);
    U32Bytes(b, 8);
    U32Bytes(b, 12);
  }

  /** Bytes that decode are the encoding of what they decode to exactly when the state word fits its byte. */
  lemma StatusBytesRoundTrip(b: seq<byte>)
    requires |b| == STATUS_SIZE && StatusFromBytes(b).Some?
    ensures StatusToBytes(StatusFromBytes(b).value) == b <==> Number32(b, 0) < 256
  {
    var vs := StatusWords(StatusFromBytes(b).value);
    CodeRoundTrip(U32At(b, 0) % 256);
    U32Bytes(b, 0);
    if U32At(b, 0) < 256 {
      BytesAreWords4(b, 0, vs);
      assert b[0..16] == b;
    } else if Words(vs, 4) == b {
      EqualWords(vs, b, 0, 0);
    }
  }

  // ── Inference result ──────────────────────────────────────────────────────

  const RESULT_SIZE := 12

  function ResultWords(r: InferenceResult): seq<u32> { [if r.active then 1 else 0, r.topClass, r.confidence] }

  function ResultToBytes(r: InferenceResult): (b: seq<byte>)
    ensures |b| == RESULT_SIZE
  {
    WordsSize4(ResultWords(r));
    Words(ResultWords(r), 4)
  }

  function ResultFromBytes(b: seq<byte>): Option<InferenceResult> {
    if |b| < RESULT_SIZE then None
    else Some(InferenceResult(U32At(b, 0) != 0, U32At(b, 4) % 256, U32At(b, 8) % 256))
  }

  lemma ResultRoundTrip(r: InferenceResult, extra: seq<byte>)
    ensures ResultFromBytes(ResultToBytes(r) + extra) == Some(r)
  {
    var vs := ResultWords(r);
    WordsReadBack(vs, extra, 0, 0);
    WordsReadBack(vs, extra, 1, 4);
    WordsReadBack(vs, extra, 2, 8);
  }

  lemma ResultLayout(r: InferenceResult)
    ensures
      var b := ResultToBytes(r);
      && Number32(b, 0) == (if r.active then 1 else 0) && Number32(b, 4) == r.topClass && Number32(b, 8) == r.confidence
  {
    var vs, b := ResultWords(r), ResultToBytes(r);
    EqualWords(vs, b, 0, 0);
    EqualWords(vs, b, 1, 4);
    EqualWords(vs, b, 2, 8);
    U32Bytes(b, 0);
    U32Bytes(b, 4);
    U32Bytes(b, 8);
  }

  /** Bytes are the encoding of what they decode to exactly when no word is cut. */
  lemma ResultBytesRoundTrip(b: seq<byte>)
    requires |b| == RESULT_SIZE
    ensures ResultFromBytes(b).Some?
    ensures ResultToBytes(ResultFromBytes(b).value) == b
       <==> Number32(b, 0) <= 1 && Number32(b, 4) < 256 && Number32(b, 8) < 256
  {
    var vs := ResultWords(ResultFromBytes(b).value);
    U32Bytes(b, 0);
    U32Bytes(b, 4);
    U32Bytes(b, 8);
    if U32At(b, 0) <= 1 && U32At(b, 4) < 256 && U32At(b, 8) < 256 {
      BytesAreWords4(b, 0, vs);
      assert b[0..12] == b;
    } else if Words(vs, 4) == b {
      EqualWords(vs, b, 0, 0);
      EqualWords(vs, b, 1, 4);
      EqualWords(vs, b, 2, 8);
    }
  }
}
