/** The script-era copies of the per-chunk pipeline: the realtime scripts (always two 16-bit
    channels, threshold 0.2, windowed dedup), the older stream class, and the WAV script's
    per-channel counts. */
module Legacy {
  import opened Faults
  import opened Seqs
  import opened Arith
  import opened Signal
  import opened Pcm
  import opened Normalize
  import opened Kernel
  import opened Dedup
  import Stream

  /** The realtime scripts split every read into two channels, whatever was opened. */
  const ScriptChannels: int := 2

  /** `astype(float)`: the integer samples as they are, not rescaled. */
  function AsReals(rows: seq<seq<int>>): (b: Block)
    ensures |b| == |rows|
    ensures forall c :: 0 <= c < |rows| ==> |b[c]| == |rows[c]|
    ensures forall c, j :: 0 <= c < |rows| && 0 <= j < |rows[c]| ==> b[c][j] == rows[c][j] as real
  {
    seq(|rows|, c requires 0 <= c < |rows| =>
      seq(|rows[c]|, j requires 0 <= j < |rows[c]| => rows[c][j] as real))
  }

  /** `convert_to_float` is `astype(float)` followed by a division by full scale. */
  lemma ConvertIsScaledReals(rows: seq<seq<int>>, d: BitDepth)
    ensures ConvertToFloat(rows, d) == Scale(AsReals(rows), FullScale(d) as real)
  {
    var a := ConvertToFloat(rows, d);
    var b := Scale(AsReals(rows), FullScale(d) as real);
    forall c | 0 <= c < |rows|
      ensures a[c] == b[c]
    {
    }
  }

  /** Merge every entry of the aliased hit lists at 0.2, deduplicate with the default
      window, count. */
  function CountMerged(d: Block): nat
  {
    |RemoveDuplicates(Concat(GetDiscontinuities(d, Stream.StreamThreshold)), DefaultWindow)|
  }

  /** Derivative, then the merged count; the derivative refuses an empty channel. */
  function CountBlock(n: Block): (r: Result<nat>)
    ensures r.Ok? <==> forall c :: 0 <= c < |n| ==> |n[c]| > 0
  {
    match CalcAbsDerivative(n)
    case Err(f) => Err(f)
    case Ok(d) => Ok(CountMerged(d))
  }

  /** A read of 16-bit samples split into the scripts' two channels. */
  function ScriptRows(data: seq<byte>): (r: Result<seq<seq<int>>>)
    ensures r.Ok? <==> |data| % (ScriptChannels * Width(Bits16)) == 0
    ensures r.Ok? ==> |r.value| == ScriptChannels && |r.value[0]| == |r.value[1]|
    ensures r.Ok? ==> (|r.value[0]| > 0 <==> |data| > 0)
  {
    FourDivides(|data|);
    var ints :- GetSamplesFromBlock(data, Bits16);
    SplitChannels(ints, ScriptChannels)
  }

  lemma FourDivides(n: nat)
    ensures n % 2 == 0 && (n / 2) % 2 == 0 <==> n % 4 == 0
  {
    var q := n / 4;
    var r := n % 4;
    assert n == (q * 2 + r / 2) * 2 + r % 2;
    DivModOfSum(q * 2 + r / 2, 2, r % 2);
    DivModOfSum(q, 2, r / 2);
  }

  /** `process_audio_data` of the standalone realtime script: int16 samples, two channels,
      `astype(float)` and unguarded normalisation, then derivative and count. A silent read
      normalises to NaN, and no NaN compares above the threshold. */
  function RealtimeProcess(data: seq<byte>): (r: Result<nat>)
    ensures r.Ok? <==> |data| > 0 && |data| % (ScriptChannels * Width(Bits16)) == 0
  {
    match ScriptRows(data)
    case Err(f) => Err(f)
    case Ok(rows) =>
      var a := AsReals(rows);
      assert |data| > 0 ==> |a[0]| > 0 && HasSample(a);
      match NormalizeUnguarded(a)
      case Err(f) => Err(f)
      case Ok(NotANumber) => Ok(0)
      case Ok(Finite(n)) =>
        UnguardedAgreesWithGuarded(a);
        CountBlock(n)
  }

  /** The stream detector's per-chunk count is the merged count of the normalised chunk. */
  lemma ChunkIsCountBlock(b: Block)
    requires |b| > 0 && (forall c :: 0 <= c < |b| ==> |b[c]| > 0)
    ensures NormalizeGuarded(b).Ok? && Stream.ChunkGlitchCount(b) == CountBlock(NormalizeGuarded(b).value)
  {
    assert |b[0]| > 0;
  }

  /** On a read with signal the realtime script counts the guarded normalisation of its
      samples; on a silent read it counts zero. */
  lemma RealtimeIsCountBlock(data: seq<byte>)
    requires |data| > 0 && |data| % (ScriptChannels * Width(Bits16)) == 0
    ensures var a := AsReals(ScriptRows(data).value);
      && HasSample(a) && NormalizeGuarded(a).Ok?
      && (MaxAbsBlock(a) != 0.0 ==> RealtimeProcess(data) == CountBlock(NormalizeGuarded(a).value))
      && (MaxAbsBlock(a) == 0.0 ==> RealtimeProcess(data) == Ok(0))
  {
    var a := AsReals(ScriptRows(data).value);
    assert |a[0]| > 0;
    if MaxAbsBlock(a) != 0.0 {
      UnguardedAgreesWithGuarded(a);
    }
  }

  /** The realtime script counts what the packaged stream detector counts on the same 16-bit
      stereo read once its level gate lets the read through: rescaling to full scale
      before normalising changes nothing, and silence counts zero either way. */
  lemma RealtimeMatchesStream(data: seq<byte>)
    requires |data| > 0 && |data| % (ScriptChannels * Width(Bits16)) == 0
    ensures Stream.ChunkGlitchCount(ConvertToFloat(ScriptRows(data).value, Bits16)).Ok?
    ensures RealtimeProcess(data).value
         == Stream.ChunkGlitchCount(ConvertToFloat(ScriptRows(data).value, Bits16)).value
  {
    var rows := ScriptRows(data).value;
    var a := AsReals(rows);
    var f := ConvertToFloat(rows, Bits16);
    var k := FullScale(Bits16) as real;
    RealtimeIsCountBlock(data);
    ConvertIsScaledReals(rows, Bits16);
    assert |f[0]| > 0 && |f[1]| > 0;
    assert Stream.ChunkGlitchCount(f).Ok?;
    ChunkIsCountBlock(f);
    NormalizeScaleInvariant(a, k);
    if MaxAbsBlock(a) == 0.0 {
      SilentIffZeroPeak(a);
      ScaleSilence(a, k);
      Stream.SilenceCountsZero(f);
    }
  }

  /** `process_audio_data` of the realtime detector script and `_process_audio_data` of the
      older stream class: the int16 array goes straight into the in-place `normalize_data`
      of the top-level utilities, so every well-formed read raises before a count exists. */
  function InPlaceProcess(data: seq<byte>): (r: Result<nat>)
    ensures r.Err?
    ensures r.fault == CastError <==> |data| > 0 && |data| % (ScriptChannels * Width(Bits16)) == 0
  {
    match ScriptRows(data)
    case Err(f) => Err(f)
    case Ok(rows) =>
      assert |data| > 0 ==> |rows[0]| > 0;
      match NormalizeIntsInPlace(rows)
      case Err(f) => Err(f)
      case Ok(n) => CountBlock(n)
  }

  /** Every read the realtime script can count, the in-place copies fail on. */
  lemma InPlaceNeverCounts(data: seq<byte>)
    requires |data| > 0 && |data| % (ScriptChannels * Width(Bits16)) == 0
    ensures InPlaceProcess(data) == Err(CastError)
    ensures RealtimeProcess(data).Ok?
  {
  }

  /** `astype(float)` of one row. */
  function ToReals(xs: seq<int>): (r: seq<real>)
    ensures |r| == |xs|
    ensures forall i :: 0 <= i < |xs| ==> r[i] == xs[i] as real
  {
    seq(|xs|, i requires 0 <= i < |xs| => xs[i] as real)
  }

  /** One zero counter per channel. */
  function Zeros(n: nat): (r: seq<nat>)
    ensures |r| == n && forall c :: 0 <= c < n ==> r[c] == 0
  {
    seq(n, c requires 0 <= c < n => 0)
  }

  /** The WAV script: int16 samples, unguarded normalisation of the whole interleaved buffer,
      split into the file's channels, derivative, and one counter per channel. A silent file
      normalises to NaN, and no NaN counts. */
  function WavCounts(data: seq<byte>, channels: int, th: real): (r: Result<seq<nat>>)
    ensures r.Ok? <==> |data| > 0 && |data| % Width(Bits16) == 0 && channels >= 1
                       && (|data| / Width(Bits16)) % channels == 0
    ensures r.Ok? ==> |r.value| == channels
  {
    var ints :- GetSamplesFromBlock(data, Bits16);
    var flat := [ToReals(ints)];
    assert |ints| > 0 ==> |flat[0]| > 0 && HasSample(flat);
    match NormalizeUnguarded(flat)
    case Err(f) => Err(f)
    case Ok(NotANumber) =>
      (match SplitChannels(ints, channels)
       case Err(f) => Err(f)
       case Ok(_) => Ok(Zeros(channels)))
    case Ok(Finite(n)) =>
      match SplitChannels(n[0], channels)
      case Err(f) => Err(f)
      case Ok(rows) =>
        assert |rows[0]| > 0;
        match CalcAbsDerivative(rows)
        case Err(f) => Err(f)
        case Ok(d) => Ok(CountDiscontinuities(d, th))
  }

  /** Every channel row is bounded by the interleaved buffer's peak. */
  lemma SplitPeakBound(xs: seq<real>, channels: int)
    requires SplitChannels(xs, channels).Ok?
    ensures forall c, j :: 0 <= c < channels && 0 <= j < |SplitChannels(xs, channels).value[c]| ==>
      Abs(SplitChannels(xs, channels).value[c][j]) <= MaxAbsBlock([xs])
  {
    var rows := SplitChannels(xs, channels).value;
    forall c, j | 0 <= c < channels && 0 <= j < |rows[c]|
      ensures Abs(rows[c][j]) <= MaxAbsBlock([xs])
    {
      SplitEntry(xs, channels, c, j);
      assert [xs][0][j * channels + c] == rows[c][j];
    }
  }

  /** Sample `i` of the buffer lands in some channel row. */
  lemma SplitCovers(xs: seq<real>, channels: int, i: int)
    requires SplitChannels(xs, channels).Ok? && 0 <= i < |xs|
    ensures exists c, j :: 0 <= c < channels && 0 <= j < |SplitChannels(xs, channels).value[c]|
                        && SplitChannels(xs, channels).value[c][j] == xs[i]
  {
    var rows := SplitChannels(xs, channels).value;
    var frames := |xs| / channels;
    ExactDiv(|xs|, channels);
    DivBelow(i, channels, frames);
    var c, j := i % channels, i / channels;
    assert i == j * channels + c;
    assert |rows[c]| * channels == |xs|;
    SplitEntry(xs, channels, c, j);
  }

  /** The channel rows and the interleaved buffer have the same peak. */
  lemma SplitPeak(xs: seq<real>, channels: int)
    requires SplitChannels(xs, channels).Ok?
    ensures MaxAbsBlock(SplitChannels(xs, channels).value) == MaxAbsBlock([xs])
  {
    var rows := SplitChannels(xs, channels).value;
    var m := MaxAbsBlock([xs]);
    SplitPeakBound(xs, channels);
    if |xs| > 0 {
      assert |[xs][0]| > 0 && HasSample([xs]);
      var c0, i :| 0 <= c0 < 1 && 0 <= i < |[xs][c0]| && Abs([xs][c0][i]) == m;
      SplitCovers(xs, channels, i);
      var c, j :| 0 <= c < channels && 0 <= j < |rows[c]| && rows[c][j] == xs[i];
      PeakIsUnique(rows, m);
    } else {
      assert |rows[0]| == 0;
      assert !HasSample(rows);
      assert !HasSample([xs]);
    }
  }

  /** Scaling the buffer then splitting it is splitting then scaling every row. */
  lemma SplitScale(xs: seq<real>, channels: int, m: real)
    requires SplitChannels(xs, channels).Ok? && m != 0.0
    ensures SplitChannels(Scale([xs], m)[0], channels).Ok?
    ensures SplitChannels(Scale([xs], m)[0], channels).value
         == Scale(SplitChannels(xs, channels).value, m)
  {
    var rows := SplitChannels(xs, channels).value;
    var ys := Scale([xs], m)[0];
    assert |ys| == |xs|;
    var r := SplitChannels(ys, channels).value;
    var s := Scale(rows, m);
    forall c | 0 <= c < channels
      ensures r[c] == s[c]
    {
      forall j | 0 <= j < |r[c]|
        ensures r[c][j] == s[c][j]
      {
        SplitEntry(ys, channels, c, j);
        SplitEntry(xs, channels, c, j);
      }
    }
  }

  /** With a non-negative threshold, a silent derivative counts nothing on any channel. */
  lemma SilentCounts(d: Block, th: real)
    requires th >= 0.0
    requires forall c, j :: 0 <= c < |d| && 0 <= j < |d[c]| ==> d[c][j] == 0.0
    ensures CountDiscontinuities(d, th) == Zeros(|d|)
  {
    CountsMatchOwnHits(d, th);
    forall c | 0 <= c < |d|
      ensures CountDiscontinuities(d, th)[c] == 0
    {
      assert PerChannelHits(d, th)[c] == ChannelHits(d[c], th);
    }
  }

  /** A block of silent, non-empty channels is left as it is by guarded normalisation, and
      its derivative is silent too. */
  lemma SilentBlock(b: Block)
    requires |b| > 0 && (forall c :: 0 <= c < |b| ==> |b[c]| > 0) && MaxAbsBlock(b) == 0.0
    ensures NormalizeGuarded(b) == Ok(b) && CalcAbsDerivative(b).Ok?
    ensures forall c, j :: 0 <= c < |b| && 0 <= j < |b[c]| ==> CalcAbsDerivative(b).value[c][j] == 0.0
  {
    assert |b[0]| > 0 && HasSample(b);
    SilentIffZeroPeak(b);
  }

  /** A silent buffer splits into silent rows, whose guarded normalisation leaves them
      as they are and whose derivative is silent too. */
  lemma SilentRows(xs: seq<real>, channels: int)
    requires SplitChannels(xs, channels).Ok? && |xs| > 0
    requires MaxAbsBlock([xs]) == 0.0
    ensures var rows := SplitChannels(xs, channels).value;
      && NormalizeGuarded(rows) == Ok(rows) && CalcAbsDerivative(rows).Ok?
      && forall c, j :: 0 <= c < |rows| && 0 <= j < |rows[c]| ==> CalcAbsDerivative(rows).value[c][j] == 0.0
  {
    var rows := SplitChannels(xs, channels).value;
    assert forall c :: 0 <= c < |rows| ==> |rows[c]| > 0;
    SplitPeak(xs, channels);
    SilentBlock(rows);
  }

  /** A silent file: the NaN counters are the zero counters of the silent split block. */
  lemma WavSilent(data: seq<byte>, channels: int, th: real)
    requires |data| > 0 && |data| % Width(Bits16) == 0
    requires channels >= 1 && (|data| / Width(Bits16)) % channels == 0 && th >= 0.0
    requires MaxAbsBlock([ToReals(GetSamplesFromBlock(data, Bits16).value)]) == 0.0
    ensures var rows := SplitChannels(ToReals(GetSamplesFromBlock(data, Bits16).value), channels).value;
      && NormalizeGuarded(rows) == Ok(rows) && CalcAbsDerivative(rows).Ok?
      && WavCounts(data, channels, th) == Ok(CountDiscontinuities(CalcAbsDerivative(rows).value, th))
  {
    var ints := GetSamplesFromBlock(data, Bits16).value;
    var xs := ToReals(ints);
    var rows := SplitChannels(xs, channels).value;
    SilentRows(xs, channels);
    var d := CalcAbsDerivative(rows).value;
    SilentCounts(d, th);
    assert |[xs][0]| > 0 && HasSample([xs]);
    assert NormalizeUnguarded([xs]) == Ok(NotANumber);
    assert WavCounts(data, channels, th) == Ok(Zeros(channels));
  }

  /** A file with signal: the normalised buffer splits into the normalised rows. */
  lemma WavSignal(data: seq<byte>, channels: int, th: real)
    requires |data| > 0 && |data| % Width(Bits16) == 0
    requires channels >= 1 && (|data| / Width(Bits16)) % channels == 0
    requires MaxAbsBlock([ToReals(GetSamplesFromBlock(data, Bits16).value)]) != 0.0
    ensures var rows := SplitChannels(ToReals(GetSamplesFromBlock(data, Bits16).value), channels).value;
      && NormalizeGuarded(rows).Ok? && CalcAbsDerivative(NormalizeGuarded(rows).value).Ok?
      && WavCounts(data, channels, th)
         == Ok(CountDiscontinuities(CalcAbsDerivative(NormalizeGuarded(rows).value).value, th))
  {
    var ints := GetSamplesFromBlock(data, Bits16).value;
    var xs := ToReals(ints);
    var rows := SplitChannels(xs, channels).value;
    var m := MaxAbsBlock([xs]);
    assert |rows[0]| > 0 && HasSample(rows);
    assert |[xs][0]| > 0 && HasSample([xs]);
    SplitPeak(xs, channels);
    GuardedIsScale(rows);
    SplitScale(xs, channels, m);
    assert NormalizeUnguarded([xs]) == Ok(Finite(Scale([xs], m)));
  }

  /** Normalising the interleaved buffer before splitting, as the script does, counts what
      normalising the split block by its peak counts. The NaN of a silent file stands in for
      zero counts, which a non-negative threshold also gives. */
  lemma WavNormalizeBeforeSplit(data: seq<byte>, channels: int, th: real)
    requires |data| > 0 && |data| % Width(Bits16) == 0
    requires channels >= 1 && (|data| / Width(Bits16)) % channels == 0 && th >= 0.0
    ensures var rows := SplitChannels(ToReals(GetSamplesFromBlock(data, Bits16).value), channels).value;
      && NormalizeGuarded(rows).Ok? && CalcAbsDerivative(NormalizeGuarded(rows).value).Ok?
      && WavCounts(data, channels, th)
         == Ok(CountDiscontinuities(CalcAbsDerivative(NormalizeGuarded(rows).value).value, th))
  {
    if MaxAbsBlock([ToReals(GetSamplesFromBlock(data, Bits16).value)]) == 0.0 {
      WavSilent(data, channels, th);
    } else {
      WavSignal(data, channels, th);
    }
  }
}
