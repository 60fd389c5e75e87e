/** Raw PCM bytes to integer samples, channel de-interleaving and scaling to floats. */
module Pcm {
  import opened Faults
  import opened Arith
  import opened Signal

  newtype byte = x: int | 0 <= x < 256

  /** The two sample formats the detector accepts: 16- and 32-bit signed little-endian. */
  datatype BitDepth = Bits16 | Bits32

  /** Bytes per sample (numpy's `itemsize`). */
  function Width(d: BitDepth): nat
  {
    match d
    case Bits16 => 2
    case Bits32 => 4
  }

  /** `np.iinfo(dtype).max`, the divisor used by `convert_to_float`. */
  function FullScale(d: BitDepth): int
  {
    match d
    case Bits16 => 32767
    case Bits32 => 2147483647
  }

  /** A value representable by the sample type: `-(M + 1) <= x <= M`. */
  predicate InRange(d: BitDepth, x: int)
  {
    -(FullScale(d) + 1) <= x <= FullScale(d)
  }

  function Pow256(n: nat): (p: nat)
    ensures p >= 1
  {
    if n == 0 then 1 else 256 * Pow256(n - 1)
  }

  lemma WordModulus(d: BitDepth)
    ensures Pow256(Width(d)) == 2 * (FullScale(d) + 1)
  {
    assert Pow256(2) == 65536 by {
      assert Pow256(1) == 256;
    }
    if d == Bits32 {
      assert Pow256(4) == 256 * Pow256(3);
      assert Pow256(3) == 256 * Pow256(2);
    }
  }

  /** Little-endian unsigned value of a byte string. */
  function Unsigned(bs: seq<byte>): (u: nat)
    ensures u < Pow256(|bs|)
  {
    if |bs| == 0 then 0 else bs[0] as int + 256 * Unsigned(bs[1..])
  }

  /** Two's-complement reading of one sample's bytes. */
  function DecodeWord(bs: seq<byte>, d: BitDepth): (x: int)
    requires |bs| == Width(d)
    ensures InRange(d, x)
  {
    WordModulus(d);
    var u := Unsigned(bs);
    if u > FullScale(d) then u - Pow256(Width(d)) else u
  }

  /** Consecutive samples of a byte buffer whose length is a multiple of the width. */
  function Words(bs: seq<byte>, d: BitDepth): (xs: seq<int>)
    requires |bs| % Width(d) == 0
    ensures |xs| * Width(d) == |bs|
    ensures forall i :: 0 <= i < |xs| ==> InRange(d, xs[i])
    decreases |bs|
  {
    if |bs| == 0 then []
    else
      DivModOfSum(|bs| / Width(d) - 1, Width(d), 0);
      [DecodeWord(bs[..Width(d)], d)] + Words(bs[Width(d)..], d)
  }

  /** `get_samples_from_block`: `np.frombuffer(block, dtype=int16|int32)`, which raises
      when the byte count is not a whole number of samples. */
  function GetSamplesFromBlock(block: seq<byte>, d: BitDepth): (r: Result<seq<int>>)
    ensures r.Ok? <==> |block| % Width(d) == 0
    ensures r.Ok? ==> |r.value| == |block| / Width(d)
    ensures r.Ok? ==> forall i :: 0 <= i < |r.value| ==> InRange(d, r.value[i])
  {
    if |block| % Width(d) != 0 then Err(BufferSize)
    else
      var xs := Words(block, d);
      DivModOfSum(|xs|, Width(d), 0);
      Ok(xs)
  }

  /** The little-endian bytes of a value below `256^n`. */
  function EncodeUnsigned(u: nat, n: nat): (bs: seq<byte>)
    requires u < Pow256(n)
    ensures |bs| == n
  {
    if n == 0 then [] else [(u % 256) as byte] + EncodeUnsigned(u / 256, n - 1)
  }

  function EncodeWord(x: int, d: BitDepth): (bs: seq<byte>)
    requires InRange(d, x)
    ensures |bs| == Width(d)
  {
    WordModulus(d);
    EncodeUnsigned(if x < 0 then x + Pow256(Width(d)) else x, Width(d))
  }

  /** The byte buffer a sound device delivers for the samples `xs` (the inverse of decoding). */
  function EncodeSamples(xs: seq<int>, d: BitDepth): (bs: seq<byte>)
    requires forall i :: 0 <= i < |xs| ==> InRange(d, xs[i])
    ensures |bs| == |xs| * Width(d)
  {
    if |xs| == 0 then [] else EncodeWord(xs[0], d) + EncodeSamples(xs[1..], d)
  }

  lemma {:induction false} UnsignedRoundTrip(u: nat, n: nat)
    requires u < Pow256(n)
    ensures Unsigned(EncodeUnsigned(u, n)) == u
  {
    if n > 0 {
      var bs := EncodeUnsigned(u, n);
      assert bs[1..] == EncodeUnsigned(u / 256, n - 1);
      UnsignedRoundTrip(u / 256, n - 1);
    }
  }

  lemma {:induction false} EncodeUnsignedRoundTrip(bs: seq<byte>)
    ensures EncodeUnsigned(Unsigned(bs), |bs|) == bs
  {
    if |bs| > 0 {
      var u := Unsigned(bs);
      DivModOfSum(Unsigned(bs[1..]), 256, bs[0] as int);
      EncodeUnsignedRoundTrip(bs[1..]);
    }
  }

  lemma WordRoundTrip(x: int, d: BitDepth)
    requires InRange(d, x)
    ensures DecodeWord(EncodeWord(x, d), d) == x
  {
    WordModulus(d);
    UnsignedRoundTrip(if x < 0 then x + Pow256(Width(d)) else x, Width(d));
  }

  lemma WordBytesRoundTrip(bs: seq<byte>, d: BitDepth)
    requires |bs| == Width(d)
    ensures EncodeWord(DecodeWord(bs, d), d) == bs
  {
    WordModulus(d);
    EncodeUnsignedRoundTrip(bs);
  }

  /** Decoding the bytes of in-range samples gives the samples back. */
  lemma {:induction false} DecodeEncode(xs: seq<int>, d: BitDepth)
    requires forall i :: 0 <= i < |xs| ==> InRange(d, xs[i])
    ensures GetSamplesFromBlock(EncodeSamples(xs, d), d) == Ok(xs)
  {
    DivModOfSum(|xs|, Width(d), 0);
    WordsEncode(xs, d);
  }

  lemma {:induction false} WordsEncode(xs: seq<int>, d: BitDepth)
    requires forall i :: 0 <= i < |xs| ==> InRange(d, xs[i])
    ensures |EncodeSamples(xs, d)| % Width(d) == 0
    ensures Words(EncodeSamples(xs, d), d) == xs
  {
    DivModOfSum(|xs|, Width(d), 0);
    if |xs| > 0 {
      var bs := EncodeSamples(xs, d);
      var w := EncodeWord(xs[0], d);
      assert bs[..Width(d)] == w;
      assert bs[Width(d)..] == EncodeSamples(xs[1..], d);
      WordRoundTrip(xs[0], d);
      WordsEncode(xs[1..], d);
    }
  }

  /** Encoding the samples decoded from a buffer gives the buffer back. */
  lemma {:induction false} EncodeDecode(bs: seq<byte>, d: BitDepth)
    requires |bs| % Width(d) == 0
    ensures EncodeSamples(Words(bs, d), d) == bs
    decreases |bs|
  {
    if |bs| > 0 {
      DivModOfSum(|bs| / Width(d) - 1, Width(d), 0);
      WordBytesRoundTrip(bs[..Width(d)], d);
      EncodeDecode(bs[Width(d)..], d);
      assert bs == bs[..Width(d)] + bs[Width(d)..];
    }
  }

  /** `split_channels`: `np.vstack([samples[c::channels] for c in range(channels)])`. numpy
      refuses to stack no rows, or rows of unequal length (a sample count that is not a
      multiple of the channel count). */
  function SplitChannels<T>(samples: seq<T>, channels: int): (r: Result<seq<seq<T>>>)
    ensures r.Ok? <==> channels >= 1 && |samples| % channels == 0
    ensures r.Ok? ==> |r.value| == channels
    ensures r.Ok? ==> forall c :: 0 <= c < channels ==> |r.value[c]| * channels == |samples|
  {
    if channels < 1 || |samples| % channels != 0 then Err(ShapeMismatch)
    else
      var frames := |samples| / channels;
      ExactDiv(|samples|, channels);
      Ok(seq(channels, c requires 0 <= c < channels =>
        seq(frames, j requires 0 <= j < frames =>
          GridIndex(j, c, channels, frames); samples[j * channels + c])))
  }

  /** Entry `j` of channel `c` is sample `j * channels + c` of the buffer. */
  lemma SplitEntry<T>(samples: seq<T>, channels: int, c: int, j: int)
    requires SplitChannels(samples, channels).Ok?
    requires 0 <= c < channels && 0 <= j < |SplitChannels(samples, channels).value[c]|
    ensures j * channels + c < |samples|
    ensures SplitChannels(samples, channels).value[c][j] == samples[j * channels + c]
  {
    var frames := |samples| / channels;
    ExactDiv(|samples|, channels);
    GridIndex(j, c, channels, frames);
  }

  /** Equal-length channels. */
  predicate Rectangular<T>(rows: seq<seq<T>>)
  {
    forall c :: 0 <= c < |rows| ==> |rows[c]| == |rows[0]|
  }

  /** Frame-major interleaving of equal-length channels: the layout a device delivers. */
  function Interleave<T>(rows: seq<seq<T>>): (s: seq<T>)
    requires |rows| >= 1 && Rectangular(rows)
    ensures |s| == |rows[0]| * |rows|
  {
    var ch := |rows|;
    var frames := |rows[0]|;
    seq(frames * ch, i requires 0 <= i < frames * ch =>
      DivBelow(i, ch, frames); rows[i % ch][i / ch])
  }

  /** Split recovers the channels that were interleaved. */
  lemma SplitInterleave<T>(rows: seq<seq<T>>)
    requires |rows| >= 1 && Rectangular(rows)
    ensures SplitChannels(Interleave(rows), |rows|) == Ok(rows)
  {
    var ch := |rows|;
    var frames := |rows[0]|;
    var s := Interleave(rows);
    DivModOfSum(frames, ch, 0);
    var r := SplitChannels(s, ch);
    assert |s| / ch == frames;
    forall c | 0 <= c < ch
      ensures r.value[c] == rows[c]
    {
      forall j | 0 <= j < frames
        ensures r.value[c][j] == rows[c][j]
      {
        DivModOfSum(j, ch, c);
        GridIndex(j, c, ch, frames);
      }
    }
    assert r.value == rows;
  }

  /** Interleaving the split channels gives the original sample buffer. */
  lemma InterleaveSplit<T>(samples: seq<T>, channels: int)
    requires SplitChannels(samples, channels).Ok?
    ensures Interleave(SplitChannels(samples, channels).value) == samples
  {
    var rows := SplitChannels(samples, channels).value;
    var frames := |samples| / channels;
    ExactDiv(|samples|, channels);
    forall i | 0 <= i < |samples|
      ensures Interleave(rows)[i] == samples[i]
    {
      var q := i / channels;
      var c := i % channels;
      assert i == q * channels + c;
      DivBelow(i, channels, frames);
      assert Interleave(rows)[i] == rows[c][q];
      SplitEntry(samples, channels, c, q);
    }
  }

  /** `convert_to_float`: every integer sample divided by the type's maximum. */
  function ConvertToFloat(rows: seq<seq<int>>, d: BitDepth): (b: Block)
    ensures |b| == |rows|
    ensures forall c :: 0 <= c < |rows| ==> |b[c]| == |rows[c]|
    ensures forall c, j :: 0 <= c < |rows| && 0 <= j < |rows[c]| ==>
      b[c][j] * FullScale(d) as real == rows[c][j] as real
  {
    seq(|rows|, c requires 0 <= c < |rows| =>
      seq(|rows[c]|, j requires 0 <= j < |rows[c]| => rows[c][j] as real / FullScale(d) as real))
  }

  /** The converted range is `[-(M + 1) / M, 1]`: full scale maps to 1.0 and only the most
      negative code falls below -1.0. */
  lemma ConvertToFloatRange(rows: seq<seq<int>>, d: BitDepth)
    requires forall c, j :: 0 <= c < |rows| && 0 <= j < |rows[c]| ==> InRange(d, rows[c][j])
    ensures forall c, j :: 0 <= c < |rows| && 0 <= j < |rows[c]| ==>
      -(FullScale(d) + 1) as real / FullScale(d) as real <= ConvertToFloat(rows, d)[c][j] <= 1.0
    ensures forall c, j :: 0 <= c < |rows| && 0 <= j < |rows[c]| ==>
      (ConvertToFloat(rows, d)[c][j] < -1.0 <==> rows[c][j] == -(FullScale(d) + 1))
  {
  }
}
