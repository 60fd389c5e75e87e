/** `GlitchDetector`: derivative, threshold scan, channel merge and windowed dedup over one
    block, with the block's indices made absolute by a frame offset. */
module Detector {
  import opened Faults
  import opened Seqs
  import opened Signal
  import opened Kernel
  import opened Dedup

  datatype DetectionResult = DetectionResult(sampleIndices: seq<int>, timestampsMs: seq<real>, totalCount: int)

  /** A detector for one sample rate and threshold (the constructor's default is 0.1). */
  datatype GlitchDetector = GlitchDetector(sampleRate: int, threshold: real)

  const DefaultThreshold: real := 0.1

  /** `_sample_to_milliseconds`: `(index / sample_rate) * 1000.0`. */
  function Milliseconds(index: int, sampleRate: int): real
    requires sampleRate != 0
  {
    (index as real / sampleRate as real) * 1000.0
  }

  /** `get_time_ms` of the scripts: `frame / (rate / 1000)`. */
  function GetTimeMs(frame: int, sampleRate: int): (ms: real)
    requires sampleRate != 0
    ensures ms == Milliseconds(frame, sampleRate)
  {
    frame as real / (sampleRate as real / 1000.0)
  }

  /** Later frames are later in time. */
  lemma TimeMonotone(f: int, g: int, sampleRate: int)
    requires sampleRate > 0 && f <= g
    ensures GetTimeMs(f, sampleRate) <= GetTimeMs(g, sampleRate)
    ensures f < g ==> GetTimeMs(f, sampleRate) < GetTimeMs(g, sampleRate)
  {
    var r := sampleRate as real;
    assert g as real / r - f as real / r == (g - f) as real / r;
  }

  function Timestamps(indices: seq<int>, sampleRate: int): (ts: seq<real>)
    requires sampleRate != 0
    ensures |ts| == |indices|
    ensures forall i :: 0 <= i < |indices| ==> ts[i] == Milliseconds(indices[i], sampleRate)
  {
    seq(|indices|, i requires 0 <= i < |indices| => Milliseconds(indices[i], sampleRate))
  }

  /** A jump at frame `k`: for some channel, `k` is an interior sample and
      `|x[k] - x[k-1]|` is strictly above the threshold. */
  ghost predicate JumpAt(b: Block, th: real, k: int)
  {
    exists c :: 0 <= c < |b| && 1 <= k <= |b[c]| - 2 && Abs(b[c][k] - b[c][k - 1]) > th
  }

  lemma HitIsJump(b: Block, th: real, k: int)
    requires CalcAbsDerivative(b).Ok?
    ensures IsHit(CalcAbsDerivative(b).value, th, k) <==> JumpAt(b, th, k)
  {
    var d := CalcAbsDerivative(b).value;
    if JumpAt(b, th, k) {
      var c :| 0 <= c < |b| && 1 <= k <= |b[c]| - 2 && Abs(b[c][k] - b[c][k - 1]) > th;
      assert d[c][k] > th;
    }
  }

  /** The glitch indices of one block, merged over channels and deduplicated with the
      default window of 10 samples. */
  function BlockGlitches(d: Block, th: real): seq<int>
  {
    RemoveDuplicates(Concat(PerChannelHits(d, th)), DefaultWindow)
  }

  /** Every merged, deduplicated hit is a jump of the block. */
  lemma GlitchesAreJumps(b: Block, th: real)
    requires CalcAbsDerivative(b).Ok?
    ensures forall k :: k in BlockGlitches(CalcAbsDerivative(b).value, th) ==> JumpAt(b, th, k)
  {
    var d := CalcAbsDerivative(b).value;
    forall k | k in BlockGlitches(d, th)
      ensures JumpAt(b, th, k)
    {
      assert k in Elems(BlockGlitches(d, th));
      MergedHits(d, th, k);
      HitIsJump(b, th, k);
    }
  }

  /** `detect`: a derivative error (an empty channel) propagates, and a zero sample rate
      raises as soon as there is an index to convert. */
  function Detect(det: GlitchDetector, samples: Block): (r: Result<DetectionResult>)
    ensures r.Err? ==> (exists c :: 0 <= c < |samples| && |samples[c]| == 0) || det.sampleRate == 0
    ensures (forall c :: 0 <= c < |samples| ==> |samples[c]| > 0) && det.sampleRate != 0 ==> r.Ok?
    ensures r.Ok? ==> r.value.totalCount == |r.value.sampleIndices| == |r.value.timestampsMs|
    ensures r.Ok? ==> StrictlyAscending(r.value.sampleIndices)
    ensures r.Ok? ==> Spaced(r.value.sampleIndices, DefaultWindow)
    ensures r.Ok? ==> forall k :: k in r.value.sampleIndices ==> JumpAt(samples, det.threshold, k)
  {
    var d :- CalcAbsDerivative(samples);
    var filtered := BlockGlitches(d, det.threshold);
    GlitchesAreJumps(samples, det.threshold);
    if det.sampleRate == 0 && |filtered| > 0 then Err(ZeroDivision)
    else if det.sampleRate == 0 then Ok(DetectionResult([], [], 0))
    else Ok(DetectionResult(filtered, Timestamps(filtered, det.sampleRate), |filtered|))
  }

  /** Every jump lies within 10 samples after a reported index. */
  lemma DetectComplete(det: GlitchDetector, samples: Block, k: int)
    requires Detect(det, samples).Ok? && JumpAt(samples, det.threshold, k)
    ensures Covered(k, Detect(det, samples).value.sampleIndices, DefaultWindow)
  {
    var d := CalcAbsDerivative(samples).value;
    var merged := Concat(PerChannelHits(d, det.threshold));
    Coverage(merged, DefaultWindow);
    HitIsJump(samples, det.threshold, k);
    MergedHits(d, det.threshold, k);
  }

  /** Every reported index is a jump, every jump lies within 10 samples after a reported
      index, and every timestamp is its index converted to milliseconds. */
  lemma DetectSoundComplete(det: GlitchDetector, samples: Block)
    requires Detect(det, samples).Ok?
    ensures var r := Detect(det, samples).value;
      && (forall k :: k in r.sampleIndices ==> JumpAt(samples, det.threshold, k))
      && (forall k :: JumpAt(samples, det.threshold, k) ==> Covered(k, r.sampleIndices, DefaultWindow))
      && (det.sampleRate != 0 ==> forall i :: 0 <= i < |r.sampleIndices| ==>
            r.timestampsMs[i] == Milliseconds(r.sampleIndices[i], det.sampleRate))
  {
    forall k | JumpAt(samples, det.threshold, k)
      ensures Covered(k, Detect(det, samples).value.sampleIndices, DefaultWindow)
    {
      DetectComplete(det, samples, k);
    }
  }

  /** `detect_with_offset`: the block-local indices shifted by the frame offset, timestamps
      recomputed from the shifted indices, the count unchanged. */
  function DetectWithOffset(det: GlitchDetector, samples: Block, offset: int): (r: Result<DetectionResult>)
    ensures r.Ok? <==> Detect(det, samples).Ok?
    ensures r.Err? ==> r.fault == Detect(det, samples).fault
    ensures r.Ok? ==> r.value.sampleIndices == Shift(Detect(det, samples).value.sampleIndices, offset)
    ensures r.Ok? ==> r.value.totalCount == Detect(det, samples).value.totalCount
    ensures r.Ok? ==> |r.value.timestampsMs| == |r.value.sampleIndices|
    ensures r.Ok? && det.sampleRate != 0 ==> forall i :: 0 <= i < |r.value.sampleIndices| ==>
      r.value.timestampsMs[i] == Milliseconds(r.value.sampleIndices[i], det.sampleRate)
  {
    match Detect(det, samples)
    case Err(f) => Err(f)
    case Ok(result) =>
      var absolute := Shift(result.sampleIndices, offset);
      var stamps := if det.sampleRate == 0 then [] else Timestamps(absolute, det.sampleRate);
      Ok(DetectionResult(absolute, stamps, result.totalCount))
  }

  /** A zero offset gives exactly the result of `detect`. */
  lemma OffsetZero(det: GlitchDetector, samples: Block)
    ensures DetectWithOffset(det, samples, 0) == Detect(det, samples)
  {
    var r := Detect(det, samples);
    if r.Ok? {
      DetectSoundComplete(det, samples);
      assert Shift(r.value.sampleIndices, 0) == r.value.sampleIndices;
    }
  }

  /** The offset result is still ascending, still spaced by the window, and its count is
      still the number of indices. */
  lemma OffsetKeepsOrder(det: GlitchDetector, samples: Block, offset: int)
    requires DetectWithOffset(det, samples, offset).Ok?
    ensures var r := DetectWithOffset(det, samples, offset).value;
      StrictlyAscending(r.sampleIndices) && Spaced(r.sampleIndices, DefaultWindow)
      && r.totalCount == |r.sampleIndices|
  {
    var base := Detect(det, samples).value;
    ShiftAscending(base.sampleIndices, offset);
    ShiftSpaced(base.sampleIndices, offset, DefaultWindow);
  }

  /** Merging the aliased lists of `get_discontinuities` instead of one list per channel
      gives the same deduplicated indices. */
  lemma AliasingInvisibleAfterDedup(d: Block, th: real, w: int)
    ensures RemoveDuplicates(Concat(GetDiscontinuities(d, th)), w)
         == RemoveDuplicates(Concat(PerChannelHits(d, th)), w)
  {
    AliasingHarmless(d, th);
    SetDetermined(Concat(GetDiscontinuities(d, th)), Concat(PerChannelHits(d, th)), w);
  }
}
