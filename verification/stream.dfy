/** The live stream detector: per chunk it decodes, meters, gates on the signal level,
    normalises, differentiates and counts deduplicated discontinuities; its thread loop
    reports positive counts and optionally keeps the offending chunks. */
module Stream {
  import opened Faults
  import opened Arith
  import opened Seqs
  import opened Signal
  import opened Pcm
  import opened Normalize
  import opened Kernel
  import opened Dedup
  import opened Meter
  import opened Detector

  datatype AudioFormat = AudioFormat(bitDepth: BitDepth, channels: int, rate: int, chunk: int)

  /** 16-bit stereo at 48 kHz, 1024 frames per read. */
  const DefaultFormat: AudioFormat := AudioFormat(Bits16, 2, 48000, 1024)

  /** The derivative threshold the stream uses; the detector's own threshold is stored but
      never read. */
  const StreamThreshold: real := 0.2

  /** -40 dB as an amplitude. */
  const DefaultGate: real := 0.01

  datatype StreamDetector = StreamDetector(
    format: AudioFormat,
    detectionThreshold: real,
    saveBlocks: bool,
    savedBlocks: seq<seq<byte>>,
    running: bool,
    meter: Meter,
    gate: real,
    closed: bool)

  predicate Valid(s: StreamDetector)
  {
    WellFormed(s.meter)
  }

  function NewStreamDetector(format: AudioFormat, detectionThreshold: real, saveBlocks: bool, gate: real): (s: StreamDetector)
    ensures Valid(s) && !s.running && !s.closed && s.savedBlocks == []
    ensures forall i :: 0 <= i < Slots ==> s.meter.peakRaw[i] == 0.0 && s.meter.peakLevel[i] == 1.0
  {
    StreamDetector(format, detectionThreshold, saveBlocks, [], false, NewMeter(), gate, false)
  }

  /** A read's bytes as a channel-major float block. */
  function Decode(format: AudioFormat, data: seq<byte>): (r: Result<Block>)
    ensures r.Ok? <==> |data| % Width(format.bitDepth) == 0 && format.channels >= 1
                       && (|data| / Width(format.bitDepth)) % format.channels == 0
    ensures r.Ok? ==> |r.value| == format.channels
    ensures r.Ok? ==> forall c :: 0 <= c < |r.value| ==>
      |r.value[c]| * format.channels * Width(format.bitDepth) == |data|
  {
    var ints :- GetSamplesFromBlock(data, format.bitDepth);
    var rows :- SplitChannels(ints, format.channels);
    Ok(ConvertToFloat(rows, format.bitDepth))
  }

  /** The level check as written: the chunk is ignored when every one of the meter's two
      readings is below the gate. */
  predicate Gated(reading: seq<real>, gate: real)
    requires |reading| == Slots
  {
    forall i :: 0 <= i < Slots ==> reading[i] < gate
  }

  /** What follows the gate: guarded normalisation, derivative, hits at 0.2 from the
      aliased finder, every entry merged, deduplicated, counted. */
  function ChunkGlitchCount(b: Block): (r: Result<nat>)
    ensures r.Ok? <==> |b| > 0 && forall c :: 0 <= c < |b| ==> |b[c]| > 0
  {
    assert |b| > 0 && |b[0]| > 0 ==> HasSample(b);
    var n :- NormalizeGuarded(b);
    var d :- CalcAbsDerivative(n);
    Ok(|RemoveDuplicates(Concat(GetDiscontinuities(d, StreamThreshold)), DefaultWindow)|)
  }

  /** The count is positive exactly when the normalised block has a jump above 0.2. */
  lemma ChunkCountPositiveIffJump(b: Block)
    requires |b| > 0 && (forall c :: 0 <= c < |b| ==> |b[c]| > 0)
    ensures ChunkGlitchCount(b).Ok?
    ensures ChunkGlitchCount(b).value > 0 <==> exists k :: JumpAt(NormalizeGuarded(b).value, StreamThreshold, k)
  {
    var n := NormalizeGuarded(b).value;
    var d := CalcAbsDerivative(n).value;
    AliasingInvisibleAfterDedup(d, StreamThreshold, DefaultWindow);
    var merged := Concat(PerChannelHits(d, StreamThreshold));
    if exists k :: JumpAt(n, StreamThreshold, k) {
      var k :| JumpAt(n, StreamThreshold, k);
      HitIsJump(n, StreamThreshold, k);
      MergedHits(d, StreamThreshold, k);
    }
    if |merged| > 0 {
      var k := merged[0];
      MergedHits(d, StreamThreshold, k);
      HitIsJump(n, StreamThreshold, k);
    }
  }

  /** The count is that of the core detector at threshold 0.2 on the normalised block. */
  lemma ChunkCountIsDetect(b: Block, rate: int)
    requires |b| > 0 && (forall c :: 0 <= c < |b| ==> |b[c]| > 0) && rate != 0
    ensures ChunkGlitchCount(b).Ok? && NormalizeGuarded(b).Ok?
    ensures Detect(GlitchDetector(rate, StreamThreshold), NormalizeGuarded(b).value).Ok?
    ensures ChunkGlitchCount(b).value
         == Detect(GlitchDetector(rate, StreamThreshold), NormalizeGuarded(b).value).value.totalCount
  {
    var d := CalcAbsDerivative(NormalizeGuarded(b).value).value;
    AliasingInvisibleAfterDedup(d, StreamThreshold, DefaultWindow);
  }

  /** Digital silence counts no discontinuity. */
  lemma SilenceCountsZero(b: Block)
    requires |b| > 0 && (forall c :: 0 <= c < |b| ==> |b[c]| > 0)
    requires forall c, j :: 0 <= c < |b| && 0 <= j < |b[c]| ==> b[c][j] == 0.0
    ensures ChunkGlitchCount(b).value == 0
  {
    SilentIffZeroPeak(b);
    ChunkCountPositiveIffJump(b);
    assert NormalizeGuarded(b).value == b;
  }

  /** What a call of `_process_audio_data` leaves behind: the meter, which it changes even
      when it raises, and the count or the exception. */
  datatype Processed = Processed(meter: Meter, count: Result<nat>)

  /** `_process_audio_data` on a decoded block with the meter and gate given. With no
      channel the meter loop does nothing; the gate may then return 0, and otherwise
      `np.max` of the empty array raises. */
  function ProcessSamples(m: Meter, gate: real, b: Block): (r: Processed)
    requires WellFormed(m)
    ensures WellFormed(r.meter)
    ensures r.count.Ok? <==> && |b| <= Slots && (forall c :: 0 <= c < |b| ==> |b[c]| > 0)
                             && (|b| >= 1 || Gated(GetPeak(Update(m, b).value).1, gate))
    ensures Update(m, b).Ok? ==> r.meter == GetPeak(Update(m, b).value).0 && Cleared(r.meter)
    ensures Update(m, b).Err? ==> r.meter == PartialUpdate(m, b, 0) && r.count == Err(Update(m, b).fault)
    ensures r.count.Ok? && Gated(GetPeak(Update(m, b).value).1, gate) ==> r.count.value == 0
    ensures r.count.Ok? && !Gated(GetPeak(Update(m, b).value).1, gate) ==> r.count == ChunkGlitchCount(b)
  {
    match Update(m, b)
    case Err(f) => Processed(PartialUpdate(m, b, 0), Err(f))
    case Ok(m1) =>
      var (m2, reading) := GetPeak(m1);
      if Gated(reading, gate) then Processed(m2, Ok(0))
      else Processed(m2, ChunkGlitchCount(b))
  }

  /** A chunk with more channels than the meter has slots raises at the third channel, after
      the first two slots were raised; the raised peaks stay in the meter. */
  lemma ThirdChannelRaises(m: Meter, gate: real, b: Block)
    requires WellFormed(m) && |b| > Slots && forall c :: 0 <= c < |b| ==> |b[c]| > 0
    ensures ProcessSamples(m, gate, b).count == Err(ChannelIndex)
    ensures ProcessSamples(m, gate, b).meter.peakLevel == m.peakLevel
    ensures forall i :: 0 <= i < Slots ==>
      ProcessSamples(m, gate, b).meter.peakRaw[i] == Max(m.peakRaw[i], MaxAbs(b[i]))
  {
    var m0 := Meter(m.peakRaw[0 := Max(m.peakRaw[0], MaxAbs(b[0]))], m.peakLevel);
    var m1 := Meter(m0.peakRaw[1 := Max(m0.peakRaw[1], MaxAbs(b[1]))], m0.peakLevel);
    assert UpdateFrom(m1, b, 2) == Err(ChannelIndex);
    assert UpdateFrom(m0, b, 1) == Err(ChannelIndex);
    assert UpdateFrom(m, b, 0) == Err(ChannelIndex);
    assert Reached(b, 0, 0) && Reached(b, 0, 1);
  }

  /** The level check as evidently intended: only the slots of channels the chunk has
      are compared with the gate. */
  predicate GatedPresent(reading: seq<real>, gate: real, channels: int)
    requires |reading| == Slots
  {
    forall i :: 0 <= i < Slots && i < channels ==> reading[i] < gate
  }

  /** `ProcessSamples` with the corrected level check: the meter ends as it does there, and
      the corrected check fails on fewer blocks, since with no channel it always gates. */
  function ProcessSamplesCorrected(m: Meter, gate: real, b: Block): (r: Processed)
    requires WellFormed(m)
    ensures WellFormed(r.meter) && r.meter == ProcessSamples(m, gate, b).meter
    ensures r.count.Ok? <==> |b| <= Slots && forall c :: 0 <= c < |b| ==> |b[c]| > 0
    ensures ProcessSamples(m, gate, b).count.Ok? ==> r.count.Ok?
  {
    match Update(m, b)
    case Err(f) => Processed(PartialUpdate(m, b, 0), Err(f))
    case Ok(m1) =>
      var (m2, reading) := GetPeak(m1);
      if GatedPresent(reading, gate, |b|) then Processed(m2, Ok(0))
      else Processed(m2, ChunkGlitchCount(b))
  }

  /** With the corrected check, a chunk whose every channel peaks below the gate (and is
      not digital silence) is ignored whatever it holds. */
  lemma QuietChunkIgnored(m: Meter, gate: real, b: Block)
    requires WellFormed(m) && Cleared(m) && 1 <= |b| <= Slots
    requires forall c :: 0 <= c < |b| ==> 0.0 < MaxAbs(b[c]) < gate
    ensures ProcessSamplesCorrected(m, gate, b).count == Ok(0)
  {
    var u := Update(m, b).value;
    assert forall c :: 0 <= c < |b| ==> u.peakRaw[c] == MaxAbs(b[c]) by {
      forall c | 0 <= c < |b|
        ensures u.peakRaw[c] == MaxAbs(b[c])
      {
        assert m.peakRaw[c] == 0.0;
      }
    }
  }

  /** As written, a mono meter's idle second slot stays at 0 dB, so with any gate at or below
      0 dB a mono chunk is never ignored: it is always normalised and counted. */
  lemma MonoGateNeverCloses(m: Meter, gate: real, b: Block)
    requires SecondSlotIdle(m) && |b| == 1 && gate <= 1.0
    requires |b[0]| > 0
    ensures ProcessSamples(m, gate, b).count.Ok?
    ensures ProcessSamples(m, gate, b).count == ChunkGlitchCount(b)
    ensures SecondSlotIdle(ProcessSamples(m, gate, b).meter)
  {
    MonoKeepsSecondSlot(m, b);
    MonoKeepsSecondSlot(Update(m, b).value, b);
  }

  /** The quiet mono chunk of the counterexample below peaks at 0.005. */
  lemma QuietChunkPeak(b: Block)
    requires b == [[0.0, 0.005, 0.0, 0.0]]
    ensures MaxAbs(b[0]) == 0.005 && HasSample(b) && MaxAbsBlock(b) == 0.005
  {
    assert Abs(b[0][1]) == 0.005;
    assert forall j :: 0 <= j < |b[0]| ==> Abs(b[0][j]) <= 0.005;
    assert HasSample(b);
    PeakIsUnique(b, 0.005);
  }

  /** Full-scale normalisation turns that chunk's step at sample 1 into a jump of 1.0. */
  lemma QuietChunkScaled(b: Block)
    requires b == [[0.0, 0.005, 0.0, 0.0]]
    ensures MaxAbs(b[0]) == 0.005
    ensures NormalizeGuarded(b).Ok? && JumpAt(NormalizeGuarded(b).value, StreamThreshold, 1)
  {
    QuietChunkPeak(b);
    GuardedIsScale(b);
    var n := Scale(b, 0.005);
    assert n[0][1] == 1.0 && n[0][0] == 0.0;
  }

  /** So that chunk is counted. */
  lemma QuietChunkJumps(b: Block)
    requires b == [[0.0, 0.005, 0.0, 0.0]]
    ensures MaxAbs(b[0]) == 0.005
    ensures ChunkGlitchCount(b).Ok? && ChunkGlitchCount(b).value > 0
  {
    QuietChunkScaled(b);
    ChunkCountPositiveIffJump(b);
  }

  /** A mono chunk peaking at -46 dB, well under the -40 dB gate: as written it is
      normalised to full scale and reported, while the corrected check ignores it. */
  lemma MonoGateCounterexample()
    ensures var b := [[0.0, 0.005, 0.0, 0.0]];
      && MaxAbs(b[0]) < DefaultGate
      && ProcessSamples(NewMeter(), DefaultGate, b).count.Ok?
      && ProcessSamples(NewMeter(), DefaultGate, b).count.value > 0
      && ProcessSamplesCorrected(NewMeter(), DefaultGate, b).count == Ok(0)
  {
    var b: Block := [[0.0, 0.005, 0.0, 0.0]];
    QuietChunkJumps(b);
    QuietChunkIgnored(NewMeter(), DefaultGate, b);
    MonoGateNeverCloses(NewMeter(), DefaultGate, b);
  }

  /** A decoded chunk has only non-empty channels exactly when it has bytes at all. */
  lemma DecodedNonEmpty(format: AudioFormat, data: seq<byte>)
    requires Decode(format, data).Ok?
    ensures (forall c :: 0 <= c < |Decode(format, data).value| ==> |Decode(format, data).value[c]| > 0)
            <==> |data| > 0
  {
    var b := Decode(format, data).value;
    var w := format.channels * Width(format.bitDepth);
    MulAtLeast(format.channels, Width(format.bitDepth));
    forall c | 0 <= c < |b|
      ensures |b[c]| * w == |data|
    {
      assert |b[c]| * format.channels * Width(format.bitDepth) == |data|;
    }
    assert |b[0]| * w == |data|;
    if |data| > 0 {
      forall c | 0 <= c < |b|
        ensures |b[c]| > 0
      {
        assert |b[c]| * w == |data|;
      }
    }
  }

  /** `_process_audio_data`: decode, then the steps above with the detector's meter. */
  function ProcessAudioData(s: StreamDetector, data: seq<byte>): (r: Processed)
    requires Valid(s)
    ensures r.count.Ok? <==> && |data| > 0 && |data| % Width(s.format.bitDepth) == 0
                             && 1 <= s.format.channels <= Slots
                             && (|data| / Width(s.format.bitDepth)) % s.format.channels == 0
    ensures WellFormed(r.meter)
    ensures Decode(s.format, data).Err? ==> r.meter == s.meter && r.count == Err(Decode(s.format, data).fault)
    ensures Decode(s.format, data).Ok? ==> r == ProcessSamples(s.meter, s.gate, Decode(s.format, data).value)
  {
    match Decode(s.format, data)
    case Err(f) => Processed(s.meter, Err(f))
    case Ok(b) =>
      DecodedNonEmpty(s.format, data);
      ProcessSamples(s.meter, s.gate, b)
  }

  /** The detector's own threshold plays no part in the count. */
  lemma ThresholdUnused(s: StreamDetector, data: seq<byte>, t: real)
    requires Valid(s)
    ensures ProcessAudioData(s.(detectionThreshold := t), data) == ProcessAudioData(s, data)
  {
  }

  function Start(s: StreamDetector): StreamDetector { s.(running := true) }
  function Stop(s: StreamDetector): StreamDetector { s.(running := false) }
  function Reset(s: StreamDetector): StreamDetector { s.(savedBlocks := []) }

  /** `get_meter_data`: a read of the meter, which also clears its raw peaks. */
  function GetMeterData(s: StreamDetector): (r: (StreamDetector, seq<real>))
    requires Valid(s)
    ensures Valid(r.0) && |r.1| == Slots
    ensures Cleared(r.0.meter) && r.0 == s.(meter := r.0.meter)
    ensures r.1 == r.0.meter.peakLevel
    ensures forall i :: 0 <= i < Slots ==>
      r.1[i] == if s.meter.peakRaw[i] > 0.0 then s.meter.peakRaw[i] else s.meter.peakLevel[i]
  {
    var (m, reading) := GetPeak(s.meter);
    (s.(meter := m), reading)
  }

  /** What a read returned: a chunk, or an `OSError`, which is reported and skipped. */
  datatype Read = Chunk(data: seq<byte>) | ReadError

  /** The outcome of one pass of the `_run` loop: go on with the counts handed to the
      callback and the chunks appended to the saved list, leave after `close`, or die on
      an exception the loop does not catch. */
  datatype Step =
    | Continue(s: StreamDetector, reported: seq<nat>, kept: seq<seq<byte>>)
    | Closed(s: StreamDetector)
    | Crashed(s: StreamDetector, fault: Fault)

  /** The chunk processing the loop calls; the live detector passes `Live` below. */
  type Processor = (StreamDetector, seq<byte>) -> Processed

  ghost predicate KeepsMeter(process: Processor)
  {
    forall s, data :: Valid(s) ==> WellFormed(process(s, data).meter)
  }

  /** One pass of `_run`: the exit event is checked first, a paused detector does nothing,
      a positive count goes to the callback and, with saving on, the chunk to the list. */
  function Advance(process: Processor, s: StreamDetector, exitSet: bool, read: Read): (r: Step)
    ensures r.Closed? <==> exitSet
    ensures r.Closed? ==> r.s == s.(closed := true)
    ensures !exitSet && !s.running ==> r == Continue(s, [], [])
    ensures !exitSet && read.ReadError? ==> r == Continue(s, [], [])
    ensures r.Crashed? <==> !exitSet && s.running && read.Chunk? && process(s, read.data).count.Err?
    ensures r.Crashed? ==>
      r.s == s.(meter := process(s, read.data).meter) && r.fault == process(s, read.data).count.fault
    ensures !exitSet && s.running && read.Chunk? ==> r.s.meter == process(s, read.data).meter
    ensures r.Continue? ==> |r.reported| <= 1 && forall i :: 0 <= i < |r.reported| ==> r.reported[i] > 0
    ensures r.Continue? && |r.reported| == 1 ==>
      s.running && read.Chunk? && process(s, read.data).count.Ok? && r.reported[0] == process(s, read.data).count.value
    ensures r.Continue? && s.running && read.Chunk? && process(s, read.data).count.Ok? && process(s, read.data).count.value > 0
      ==> |r.reported| == 1
    ensures r.Continue? ==> r.s.savedBlocks == s.savedBlocks + r.kept
    ensures r.Continue? ==> r.kept == if s.saveBlocks && |r.reported| == 1 then [read.data] else []
    ensures r.Continue? ==> r.s.running == s.running && r.s.saveBlocks == s.saveBlocks && r.s.format == s.format
    ensures KeepsMeter(process) && Valid(s) ==> Valid(r.s)
  {
    if exitSet then Closed(s.(closed := true))
    else if !s.running then Continue(s, [], [])
    else match read
      case ReadError => Continue(s, [], [])
      case Chunk(data) =>
        var p := process(s, data);
        match p.count
        case Err(f) => Crashed(s.(meter := p.meter), f)
        case Ok(n) =>
          var s1 := s.(meter := p.meter);
          if n > 0 then
            var kept := if s.saveBlocks then [data] else [];
            Continue(s1.(savedBlocks := s.savedBlocks + kept), [n], kept)
          else Continue(s1, [], [])
  }

  /** `_process_audio_data` with the detector's meter and gate, as the loop calls it. */
  function Live(s: StreamDetector, data: seq<byte>): Processed
  {
    if Valid(s) then ProcessAudioData(s, data) else Processed(s.meter, Err(EmptyArray))
  }

  lemma LiveKeepsMeter()
    ensures KeepsMeter(Live)
  {
  }

  /** A pass of the live detector's loop. */
  function RunStep(s: StreamDetector, exitSet: bool, read: Read): (r: Step)
    requires Valid(s)
    ensures Valid(r.s)
    ensures r.Crashed? ==>
      read.Chunk? && ProcessAudioData(s, read.data).count.Err? && r.s.meter == ProcessAudioData(s, read.data).meter
  {
    LiveKeepsMeter();
    Advance(Live, s, exitSet, read)
  }

  /** A paused detector ignores its stream until it is started again. */
  lemma StoppedIsIdle(s: StreamDetector, read: Read)
    requires Valid(s)
    ensures RunStep(Stop(s), false, read) == Continue(Stop(s), [], [])
    ensures Start(Stop(s)) == Start(s) && Stop(Start(s)) == Stop(s)
  {
  }

  /** The loop over a sequence of passes, stopping at close or at an error that escapes. */
  datatype Tick = Tick(exitSet: bool, read: Read)
  datatype Run = Run(s: StreamDetector, reported: seq<nat>, ended: bool)

  function Loop(process: Processor, s: StreamDetector, ticks: seq<Tick>): (r: Run)
    ensures r.s.saveBlocks == s.saveBlocks
    ensures forall i :: 0 <= i < |r.reported| ==> r.reported[i] > 0
    decreases |ticks|
  {
    if |ticks| == 0 then Run(s, [], false)
    else
      var st := Advance(process, s, ticks[0].exitSet, ticks[0].read);
      if !st.Continue? then Run(st.s, [], true)
      else
        var rest := Loop(process, st.s, ticks[1..]);
        Run(rest.s, st.reported + rest.reported, rest.ended)
  }

  /** With saving on, the loop keeps one chunk per report after the ones already saved;
      with saving off the saved list is left alone. */
  lemma {:induction false} SavedMatchesReports(process: Processor, s: StreamDetector, ticks: seq<Tick>)
    ensures var r := Loop(process, s, ticks);
      s.saveBlocks ==> |r.s.savedBlocks| == |s.savedBlocks| + |r.reported|
                       && r.s.savedBlocks[..|s.savedBlocks|] == s.savedBlocks
    ensures !s.saveBlocks ==> Loop(process, s, ticks).s.savedBlocks == s.savedBlocks
    decreases |ticks|
  {
    if |ticks| > 0 {
      var st := Advance(process, s, ticks[0].exitSet, ticks[0].read);
      if st.Continue? {
        SavedMatchesReports(process, st.s, ticks[1..]);
      }
    }
  }

  /** The live detector's loop keeps a well-formed meter throughout. */
  lemma {:induction false} LoopKeepsValid(process: Processor, s: StreamDetector, ticks: seq<Tick>)
    requires KeepsMeter(process) && Valid(s)
    ensures Valid(Loop(process, s, ticks).s)
    decreases |ticks|
  {
    if |ticks| > 0 {
      var st := Advance(process, s, ticks[0].exitSet, ticks[0].read);
      if st.Continue? {
        LoopKeepsValid(process, st.s, ticks[1..]);
      }
    }
  }

  function RunLoop(s: StreamDetector, ticks: seq<Tick>): (r: Run)
    requires Valid(s)
    ensures Valid(r.s)
  {
    LiveKeepsMeter();
    LoopKeepsValid(Live, s, ticks);
    Loop(Live, s, ticks)
  }
}
