/**
 * The inference kernel of firmware/src/inference.rs (the same code as `run_stub_inference` in
 * host-tests/src/mock_host.rs), the packed result cell, and the router's fallback that fills it.
 */
module Inference {
  import opened Wrappers
  import opened Bytes
  import EspNow

  const TENSOR_SIZE := 1024

  datatype InferenceResult = InferenceResult(active: bool, topClass: byte, confidence: byte)

  /** `InferenceResult::default()`. */
  const INACTIVE := InferenceResult(false, 0, 0)

  /** `s as u8`. */
  function AsByte(s: i8): byte { if s < 0 then s + 256 else s }

  function UnsignedAbs(s: int): nat { if s < 0 then -s else s }

  /** The samples that are looked at. */
  function Window(tensor: seq<i8>): (w: seq<i8>)
    ensures |w| <= TENSOR_SIZE
  {
    if |tensor| <= TENSOR_SIZE then tensor else tensor[..TENSOR_SIZE]
  }

  // ── What the result is, as a function of the multiset of samples ──────────

  function FromByte(b: byte): i8 { if b >= 128 then b - 256 else b }

  /** How often the byte `b` occurs. */
  function Count(m: multiset<i8>, b: byte): nat { m[FromByte(b)] }

  /** `b` is among the most frequent bytes, and the largest of them. */
  ghost predicate IsLastMode(m: multiset<i8>, b: byte) {
    forall c: byte :: Count(m, c) < Count(m, b) || (Count(m, c) == Count(m, b) && c <= b)
  }

  /** The sum of the magnitudes of the samples below `limit`, counted from -128. */
  function WeightBelow(m: multiset<i8>, limit: int): nat
    requires -128 <= limit <= 128
    decreases limit + 128
  {
    if limit == -128 then 0 else WeightBelow(m, limit - 1) + Product(m[limit - 1], UnsignedAbs(limit - 1))
  }

  function Product(a: nat, b: nat): nat { a * b }

  function Weight(m: multiset<i8>): nat { WeightBelow(m, 128) }

  /** The result of a nonempty multiset of samples: no order in it. */
  ghost predicate IsResult(m: multiset<i8>, r: InferenceResult)
    requires |m| > 0
  {
    && r.active
    && (exists top: byte :: IsLastMode(m, top) && r.topClass == top % 8)
    && r.confidence == Confidence(Weight(m), |m|)
  }

  /** The mean magnitude as a percentage of 127, at most 100. */
  function Confidence(weight: nat, count: nat): (c: byte)
    requires count > 0
    ensures c <= 100
  {
    Min(weight / count * 100 / 127, 100)
  }

  lemma LastModeIsUnique(m: multiset<i8>, a: byte, b: byte)
    requires IsLastMode(m, a) && IsLastMode(m, b)
    ensures a == b
  {
    assert Count(m, a) < Count(m, b) || (Count(m, a) == Count(m, b) && a <= b);
    assert Count(m, b) < Count(m, a) || (Count(m, b) == Count(m, a) && b <= a);
  }

  // ── The kernel ────────────────────────────────────────────────────────────

  function SumAbs(s: seq<i8>): nat {
    if s == [] then 0 else SumAbs(s[..|s| - 1]) + UnsignedAbs(s[|s| - 1])
  }

  lemma {:induction false} SumBound(s: seq<i8>)
    ensures SumAbs(s) <= 128 * |s|
  {
    if s != [] {
      SumBound(s[..|s| - 1]);
    }
  }

  /** The mean magnitude of a window reaches 128 exactly when every sample is -128. */
  lemma {:induction false} MeanReaches128(s: seq<i8>)
    requires s != []
    ensures SumAbs(s) / |s| == 128 <==> forall k :: 0 <= k < |s| ==> s[k] == -128
  {
    SumBound(s);
    SumIsFull(s);
    FullQuotient(SumAbs(s), |s|);
  }

  lemma {:induction false} SumIsFull(s: seq<i8>)
    ensures SumAbs(s) == 128 * |s| <==> forall k :: 0 <= k < |s| ==> s[k] == -128
  {
    if s != [] {
      var n := |s| - 1;
      SumBound(s[..n]);
      SumIsFull(s[..n]);
      assert forall k :: 0 <= k < n ==> s[..n][k] == s[k];
    }
  }

  lemma FullQuotient(sum: nat, count: nat)
    requires 0 < count && sum <= 128 * count
    ensures sum / count == 128 <==> sum == 128 * count
  {
    var q := sum / count;
    assert sum == q * count + sum % count;
    if q == 128 {
      assert sum % count == 0;
    }
  }

  lemma OneMore(count: nat, weight: nat)
    ensures Product(count + 1, weight) == Product(count, weight) + weight
    ensures Product(0, weight) == 0
  {}

  /** `n` is `m` with one more `x`. */
  ghost predicate OneMoreOf(m: multiset<i8>, n: multiset<i8>, x: i8) {
    forall w: i8 :: n[w] == m[w] + if w == x then 1 else 0
  }

  lemma {:induction false} WeightOfOneMore(m: multiset<i8>, n: multiset<i8>, x: i8, limit: int)
    requires -128 <= limit <= 128 && OneMoreOf(m, n, x)
    ensures WeightBelow(n, limit) == WeightBelow(m, limit) + if x < limit then UnsignedAbs(x) else 0
    decreases limit + 128
  {
    if limit > -128 {
      WeightOfOneMore(m, n, x, limit - 1);
      var w: i8 := limit - 1;
      assert n[w] == m[w] + if w == x then 1 else 0;
      OneMore(m[w], UnsignedAbs(w));
    }
  }

  lemma WeightAdds(m: multiset<i8>, x: i8, limit: int)
    requires -128 <= limit <= 128
    ensures WeightBelow(m + multiset{x}, limit) == WeightBelow(m, limit) + if x < limit then UnsignedAbs(x) else 0
  {
    WeightOfOneMore(m, m + multiset{x}, x, limit);
  }

  lemma {:induction false} WeightOfNothing(limit: int)
    requires -128 <= limit <= 128
    ensures WeightBelow(multiset{}, limit) == 0
    decreases limit + 128
  {
    if limit > -128 {
      WeightOfNothing(limit - 1);
      OneMore(0, UnsignedAbs(limit - 1));
    }
  }

  lemma {:induction false} SumIsWeightBelow(s: seq<i8>, limit: int)
    requires -128 <= limit <= 128 && forall i :: 0 <= i < |s| ==> s[i] < limit
    ensures SumAbs(s) == WeightBelow(multiset(s), limit)
  {
    if s == [] {
      WeightOfNothing(limit);
    } else {
      var front, x := s[..|s| - 1], s[|s| - 1];
      SumIsWeightBelow(front, limit);
      assert s == front + [x];
      assert multiset(s) == multiset(front) + multiset{x};
      WeightAdds(multiset(front), x, limit);
    }
  }

  /** The sum over the samples is the weight of their multiset. */
  lemma SumIsWeight(s: seq<i8>)
    ensures SumAbs(s) == Weight(multiset(s))
  {
    SumIsWeightBelow(s, 128);
  }

  /** The histogram holds the count of every byte. */
  ghost predicate Counts(freq: seq<nat>, m: multiset<i8>) {
    |freq| == 256 && forall b: byte :: freq[b] == Count(m, b)
  }

  function Total(freq: seq<nat>): nat {
    if freq == [] then 0 else Total(freq[..|freq| - 1]) + freq[|freq| - 1]
  }

  lemma {:induction false} TotalBump(freq: seq<nat>, b: nat)
    requires b < |freq|
    ensures Total(freq[b := freq[b] + 1]) == Total(freq) + 1
  {
    var n := |freq| - 1;
    var bumped := freq[b := freq[b] + 1];
    if b == n {
      assert bumped[..n] == freq[..n];
    } else {
      TotalBump(freq[..n], b);
      assert bumped[..n] == freq[..n][b := freq[b] + 1];
    }
  }

  /** The counting loop. */
  method Histogram(w: seq<i8>) returns (freq: array<nat>)
    ensures fresh(freq) && Counts(freq[..], multiset(w))
    ensures Total(freq[..]) == |w|
  {
    freq := new nat[256](_ => 0);
    AllZero(freq[..]);
    for k := 0 to |w|
      invariant fresh(freq) && freq.Length == 256
      invariant Counts(freq[..], multiset(w[..k])) && Total(freq[..]) == k
    {
      ghost var before := freq[..];
      freq[AsByte(w[k])] := freq[AsByte(w[k])] + 1;
      assert w[..k + 1] == w[..k] + [w[k]];
      TotalBump(before, AsByte(w[k]));
      assert freq[..] == before[AsByte(w[k]) := before[AsByte(w[k])] + 1];
    }
    assert w[..|w|] == w;
  }

  lemma {:induction false} AllZero(freq: seq<nat>)
    requires forall i :: 0 <= i < |freq| ==> freq[i] == 0
    ensures Total(freq) == 0
  {
    if freq != [] {
      AllZero(freq[..|freq| - 1]);
    }
  }

  /** `enumerate().max_by_key(count)`: of equal maxima the last. */
  method LastMaximum(freq: array<nat>) returns (top: byte)
    requires freq.Length == 256
    ensures forall c :: 0 <= c < 256 ==> freq[c] < freq[top] || (freq[c] == freq[top] && c <= top)
  {
    top := 0;
    for i := 1 to 256
      invariant top < i
      invariant forall c :: 0 <= c < i ==> freq[c] < freq[top] || (freq[c] == freq[top] && c <= top)
    {
      if freq[i] >= freq[top] {
        top := i;
      }
    }
  }

  method SumOfMagnitudes(w: seq<i8>) returns (sum: nat)
    ensures sum == SumAbs(w)
  {
    sum := 0;
    for k := 0 to |w|
      invariant sum == SumAbs(w[..k])
    {
      assert w[..k + 1][..k] == w[..k];
      sum := sum + UnsignedAbs(w[k]);
    }
    assert w[..|w|] == w;
  }

  /** `TinyMlEngine::run`. Nothing overflows: the sum and its hundredfold mean stay far below 2^32. */
  method Run(tensor: seq<i8>) returns (r: InferenceResult)
    ensures tensor == [] ==> r == INACTIVE
    ensures tensor != [] ==> IsResult(multiset(Window(tensor)), r)
    ensures tensor != [] ==> IsAnswer(if |tensor| <= 1024 then tensor else tensor[..1024], r)
    ensures r.topClass < 8 && r.confidence <= 100
  {
    if tensor == [] {
      return INACTIVE;
    }
    var w := Window(tensor);
    var freq := Histogram(w);
    var topByte := LastMaximum(freq);
    assert IsLastMode(multiset(w), topByte);
    var topClass := topByte % 8;
    var sum: u32 := SumBoundedMagnitudes(w);
    var n := |w|;
    var confidence := MeanConfidence(sum, n);
    r := InferenceResult(true, topClass, confidence);
    SumIsWeight(w);
    assert |multiset(w)| == n;
    ResultIsAnswer(w, r);
  }

  method MeanConfidence(sum: u32, n: nat) returns (confidence: byte)
    requires n > 0 && sum <= 128 * n
    ensures confidence == Confidence(sum, n)
  {
    MeanBound(sum, n);
    var meanAbs: u32 := sum / n;
    var scaled: u32 := meanAbs * 100;
    confidence := Min(scaled / 127, 100);
  }

  method SumBoundedMagnitudes(w: seq<i8>) returns (sum: u32)
    requires |w| <= TENSOR_SIZE
    ensures sum == SumAbs(w) <= 128 * |w|
  {
    SumBound(w);
    sum := SumOfMagnitudes(w);
  }

  lemma MeanBound(sum: nat, n: nat)
    requires n > 0 && sum <= 128 * n
    ensures sum / n <= 128
  {}

  /** Reordering the first 1024 samples, or changing the others, never changes the result. */
  lemma OrderDoesNotMatter(a: seq<i8>, b: seq<i8>, r: InferenceResult, s: InferenceResult)
    requires a != [] && b != [] && multiset(Window(a)) == multiset(Window(b))
    requires IsResult(multiset(Window(a)), r) && IsResult(multiset(Window(b)), s)
    ensures r == s
  {
    var m := multiset(Window(a));
    var x: byte :| IsLastMode(m, x) && r.topClass == x % 8;
    var y: byte :| IsLastMode(m, y) && s.topClass == y % 8;
    LastModeIsUnique(m, x, y);
  }

  // ── The result, sample by sample ──────────────────────────────────────────

  /** How many samples have the byte `b` as their two's complement. */
  function Occurrences(w: seq<i8>, b: byte): nat {
    if w == [] then 0
    else
      var s: int := w[|w| - 1];
      Occurrences(w[..|w| - 1], b) + if s == b || s + 256 == b then 1 else 0
  }

  /** The magnitudes added up. */
  function Magnitudes(w: seq<i8>): nat {
    if w == [] then 0
    else
      var s: int := w[|w| - 1];
      Magnitudes(w[..|w| - 1]) + if s >= 0 then s else -s
  }

  /** `t` is the largest of the most frequent bytes. */
  ghost predicate IsTop(w: seq<i8>, t: byte) {
    forall c: byte ::
      Occurrences(w, c) < Occurrences(w, t) || (Occurrences(w, c) == Occurrences(w, t) && c <= t)
  }

  /** `m` is `sum / n` rounded down. */
  predicate IsMean(m: nat, sum: nat, n: nat) { m * n <= sum < (m + 1) * n }

  /** 100 from a mean of 127 on, below it the mean in percent of 127, rounded down. */
  predicate IsPercentage(c: nat, m: nat) {
    (c == 100 <==> m >= 127) && (m < 127 ==> 127 * c <= 100 * m < 127 * (c + 1))
  }

  ghost predicate IsAnswer(w: seq<i8>, r: InferenceResult) {
    && r.active
    && (exists t: byte :: IsTop(w, t) && r.topClass == t % 8)
    && (exists m: nat :: IsMean(m, Magnitudes(w), |w|) && IsPercentage(r.confidence, m))
  }

  lemma {:induction false} OccurrencesAreCount(w: seq<i8>, b: byte)
    ensures Occurrences(w, b) == Count(multiset(w), b)
  {
    if w != [] {
      var front, s := w[..|w| - 1], w[|w| - 1];
      OccurrencesAreCount(front, b);
      assert w == front + [s];
      assert multiset(w) == multiset(front) + multiset{s};
    }
  }

  lemma {:induction false} MagnitudesAreSum(w: seq<i8>)
    ensures Magnitudes(w) == SumAbs(w)
  {
    if w != [] {
      MagnitudesAreSum(w[..|w| - 1]);
    }
  }

  lemma MeanOf(sum: nat, n: nat)
    requires n > 0
    ensures IsMean(sum / n, sum, n)
  {}

  lemma PercentageOf(m: nat)
    ensures IsPercentage(Min(m * 100 / 127, 100), m)
  {}

  lemma ConfidenceOf(weight: nat, count: nat)
    requires count > 0
    ensures IsMean(weight / count, weight, count) && IsPercentage(Confidence(weight, count), weight / count)
  {
    MeanOf(weight, count);
    PercentageOf(weight / count);
  }

  lemma TopOf(w: seq<i8>, t: byte)
    requires IsLastMode(multiset(w), t)
    ensures IsTop(w, t)
  {
    forall c: byte
      ensures Occurrences(w, c) < Occurrences(w, t) || (Occurrences(w, c) == Occurrences(w, t) && c <= t)
    {
      OccurrencesAreCount(w, c);
      OccurrencesAreCount(w, t);
      assert Count(multiset(w), c) < Count(multiset(w), t) || (Count(multiset(w), c) == Count(multiset(w), t) && c <= t);
    }
  }

  /** The result of the multiset is the answer for the samples, whatever their order. */
  lemma ResultIsAnswer(w: seq<i8>, r: InferenceResult)
    requires w != [] && IsResult(multiset(w), r)
    ensures IsAnswer(w, r)
  {
    var t: byte :| IsLastMode(multiset(w), t) && r.topClass == t % 8;
    TopOf(w, t);
    SumIsWeight(w);
    MagnitudesAreSum(w);
    assert |multiset(w)| == |w|;
    ConfidenceOf(Magnitudes(w), |w|);
  }

  // ── The result cell ───────────────────────────────────────────────────────

  const ACTIVE_BIT: u32 := 0x8000_0000

  function PackResult(r: InferenceResult): u32 {
    (if r.active then ACTIVE_BIT else 0) + r.topClass * 256 + r.confidence
  }

  function UnpackResult(raw: u32): InferenceResult {
    InferenceResult(raw / ACTIVE_BIT != 0, raw / 256 % 256, raw % 256)
  }

  lemma PackResultRoundTrip(r: InferenceResult)
    ensures UnpackResult(PackResult(r)) == r
  {
    FieldsApart(if r.active then 1 else 0, r.topClass, r.confidence);
  }

  /** Bit 31 of the cell is the flag, bits 8 to 15 are the class, the low byte is the confidence. */
  lemma CellLayout(r: InferenceResult)
    ensures PackResult(r) / 0x8000_0000 == (if r.active then 1 else 0)
    ensures PackResult(r) / 0x100 % 0x100 == r.topClass && PackResult(r) % 0x100 == r.confidence
  {
    FieldsApart(if r.active then 1 else 0, r.topClass, r.confidence);
  }

  /** The three fields of the cell do not overlap. */
  lemma FieldsApart(high: nat, mid: byte, low: byte)
    requires high <= 1
    ensures
      var raw := high * ACTIVE_BIT + mid * 256 + low;
      raw / ACTIVE_BIT == high && raw / 256 % 256 == mid && raw % 256 == low
  {
    var raw := high * ACTIVE_BIT + mid * 256 + low;
    assert raw / 256 == high * 0x80_0000 + mid;
  }

  // ── The fallback ──────────────────────────────────────────────────────────

  const SNAPSHOT_QUEUE_DEPTH := 2

  /** What the router's fallback reads and writes. */
  datatype Fallback = Fallback(cell: u32, snapshots: seq<seq<i8>>, lastRxMs: u64)

  function BootFallback(): Fallback { Fallback(0, [], 0) }

  /** `result` is what the kernel returns for the snapshot it is given, if it is given one. */
  datatype Action =
    | RouterTimeout(now: u64, result: InferenceResult)
    | PushSnapshot(samples: seq<i8>)
    | ValidFrame(at: u64)

  predicate LinkAlive(f: Fallback, now: u64) { EspNow.LinkAliveAt(f.lastRxMs, now) }

  predicate RunsKernel(f: Fallback, a: Action) { a.RouterTimeout? && !LinkAlive(f, a.now) && f.snapshots != [] }

  ghost predicate Can(f: Fallback, a: Action) {
    && (a.PushSnapshot? ==> 0 < |a.samples| <= TENSOR_SIZE)
    && (RunsKernel(f, a) ==> f.snapshots[0] != [] && IsResult(multiset(Window(f.snapshots[0])), a.result))
  }

  function Next(f: Fallback, a: Action): Fallback {
    match a
    case RouterTimeout(_, result) =>
      if RunsKernel(f, a) then f.(cell := PackResult(result), snapshots := f.snapshots[1..]) else f
    case PushSnapshot(samples) =>
      if |f.snapshots| < SNAPSHOT_QUEUE_DEPTH then f.(snapshots := f.snapshots + [samples]) else f
    case ValidFrame(at) => f.(lastRxMs := at)
  }

  ghost predicate IsRun(fs: seq<Fallback>, acts: seq<Action>) {
    |fs| == |acts| + 1 && forall i :: 0 <= i < |acts| ==> Follows(fs[i], acts[i], fs[i + 1])
  }

  ghost predicate Follows(f: Fallback, a: Action, g: Fallback) { Can(f, a) && g == Next(f, a) }

  lemma StepActive(f: Fallback, a: Action)
    requires Can(f, a)
    ensures UnpackResult(Next(f, a).cell).active <==> UnpackResult(f.cell).active || RunsKernel(f, a)
  {}

  function KernelRuns(fs: seq<Fallback>, acts: seq<Action>, n: nat): nat
    requires n <= |acts| && n <= |fs|
  {
    if n == 0 then 0 else KernelRuns(fs, acts, n - 1) + if RunsKernel(fs[n - 1], acts[n - 1]) then 1 else 0
  }

  /**
   * In every run from boot, what the guest reads is active exactly when the kernel has run at least once:
   * nothing ever clears it, whether the link is alive or not.
   */
  lemma {:induction false} ActiveIffEverRun(fs: seq<Fallback>, acts: seq<Action>, n: nat)
    requires IsRun(fs, acts) && fs[0] == BootFallback() && n <= |acts|
    ensures UnpackResult(fs[n].cell).active <==> KernelRuns(fs, acts, n) > 0
  {
    if n > 0 {
      ActiveIffEverRun(fs, acts, n - 1);
      assert Follows(fs[n - 1], acts[n - 1], fs[n]);
      StepActive(fs[n - 1], acts[n - 1]);
    }
  }

  /** A run by its actions alone: the snapshots that found a place, how many were used, the last valid frame, the last result. */
  datatype Story = Story(taken: seq<seq<i8>>, used: nat, heard: u64, result: InferenceResult)

  function Told(s: Story, a: Action): Story {
    match a
    case RouterTimeout(now, result) =>
      if now >= s.heard + 3000 && s.used < |s.taken| then s.(used := s.used + 1, result := result) else s
    case PushSnapshot(samples) => if |s.taken| - s.used < 2 then s.(taken := s.taken + [samples]) else s
    case ValidFrame(at) => s.(heard := at)
  }

  function StoryOf(acts: seq<Action>, n: nat): Story
    requires n <= |acts|
  {
    if n == 0 then Story([], 0, 0, InferenceResult(false, 0, 0)) else Told(StoryOf(acts, n - 1), acts[n - 1])
  }

  /** The cell reads as the last result, which is the kernel's for the snapshot used last; the others wait. */
  ghost predicate Reads(f: Fallback, s: Story) {
    && UnpackResult(f.cell) == s.result && f.lastRxMs == s.heard
    && s.used <= |s.taken| && f.snapshots == s.taken[s.used..]
    && (forall k :: 0 <= k < |s.taken| ==> 0 < |s.taken[k]| <= 1024)
    && (s.used > 0 ==> IsAnswer(s.taken[s.used - 1], s.result))
    && (s.used == 0 ==> s.result == InferenceResult(false, 0, 0))
  }

  lemma StepReads(f: Fallback, a: Action, s: Story)
    requires Can(f, a) && Reads(f, s)
    ensures Reads(Next(f, a), Told(s, a))
  {
    if RunsKernel(f, a) {
      assert f.snapshots[0] == s.taken[s.used];
      ResultIsAnswer(f.snapshots[0], a.result);
      PackResultRoundTrip(a.result);
    }
  }

  /** In every run from boot. */
  lemma {:induction false} CellIsLastResult(fs: seq<Fallback>, acts: seq<Action>, n: nat)
    requires IsRun(fs, acts) && fs[0] == BootFallback() && n <= |acts|
    ensures Reads(fs[n], StoryOf(acts, n))
  {
    if n > 0 {
      CellIsLastResult(fs, acts, n - 1);
      assert Follows(fs[n - 1], acts[n - 1], fs[n]);
      StepReads(fs[n - 1], acts[n - 1], StoryOf(acts, n - 1));
    }
  }

  lemma SilentRun(f: Fallback, samples: seq<i8>, result: InferenceResult, silentAt: u64) returns (g: Fallback)
    requires 0 < |samples| <= TENSOR_SIZE && IsResult(multiset(Window(samples)), result)
    requires f.snapshots == [] && !LinkAlive(f, silentAt)
    ensures Can(f, PushSnapshot(samples)) && Can(Next(f, PushSnapshot(samples)), RouterTimeout(silentAt, result))
    ensures g == Next(Next(f, PushSnapshot(samples)), RouterTimeout(silentAt, result)) && UnpackResult(g.cell).active
  {
    var pushed := Next(f, PushSnapshot(samples));
    assert pushed.snapshots == [samples];
    g := Next(pushed, RouterTimeout(silentAt, result));
    PackResultRoundTrip(result);
  }

  /**
   * The documented promise fails: for every snapshot, a run in which it is taken in the silence and the link
   * comes back, and which ends with the link alive and an active result.
   */
  lemma ActiveWhileLinkAlive(samples: seq<i8>, result: InferenceResult, silentAt: u64, frameAt: u64, now: u64)
    returns (fs: seq<Fallback>, acts: seq<Action>)
    requires 0 < |samples| <= TENSOR_SIZE && IsResult(multiset(Window(samples)), result)
    requires EspNow.RADIO_SILENCE_THRESHOLD_MS <= silentAt <= frameAt <= now
    requires now - frameAt < EspNow.RADIO_SILENCE_THRESHOLD_MS
    ensures IsRun(fs, acts) && fs[0] == BootFallback()
    ensures LinkAlive(fs[|acts|], now) && UnpackResult(fs[|acts|].cell).active
  {
    var f0 := BootFallback();
    var f2 := SilentRun(f0, samples, result, silentAt);
    acts := [PushSnapshot(samples), RouterTimeout(silentAt, result), ValidFrame(frameAt)];
    fs := [f0, Next(f0, acts[0]), f2, Next(f2, acts[2])];
    assert Follows(fs[0], acts[0], fs[1]) && Follows(fs[1], acts[1], fs[2]) && Follows(fs[2], acts[2], fs[3]);
  }
}
