/** Sample blocks (channels × frames of exact reals) and their peak magnitude. */
module Signal {

  type Channel = seq<real>

  /** One block of audio: a list of channels, each a list of samples (numpy's 2-D array). */
  type Block = seq<Channel>

  function Abs(x: real): (r: real)
    ensures r >= 0.0
    ensures r == x || r == -x
  {
    if x < 0.0 then -x else x
  }

  function Max(a: real, b: real): (r: real)
    ensures r >= a && r >= b
    ensures r == a || r == b
  {
    if a >= b then a else b
  }

  /** `np.max(np.abs(xs))` for a non-empty list; 0.0 for an empty one. */
  function MaxAbs(xs: Channel): (m: real)
    ensures m >= 0.0
    ensures forall i :: 0 <= i < |xs| ==> Abs(xs[i]) <= m
    ensures |xs| > 0 ==> exists i :: 0 <= i < |xs| && Abs(xs[i]) == m
    ensures |xs| == 0 ==> m == 0.0
  {
    if |xs| == 0 then 0.0
    else
      var rest := MaxAbs(xs[1..]);
      assert forall i :: 1 <= i < |xs| ==> xs[i] == xs[1..][i - 1];
      if Abs(xs[0]) >= rest then Abs(xs[0])
      else
        assert exists i :: 0 <= i < |xs[1..]| && Abs(xs[1..][i]) == rest;
        var i :| 0 <= i < |xs[1..]| && Abs(xs[1..][i]) == rest;
        assert Abs(xs[i + 1]) == rest;
        rest
  }

  /** Some channel holds at least one sample, so a reduction over the block is defined. */
  predicate HasSample(b: Block)
  {
    exists c :: 0 <= c < |b| && |b[c]| > 0
  }

  /** `np.max(np.abs(b))` over every sample of every channel; 0.0 for an empty block. */
  function MaxAbsBlock(b: Block): (m: real)
    ensures m >= 0.0
    ensures forall c, j :: 0 <= c < |b| && 0 <= j < |b[c]| ==> Abs(b[c][j]) <= m
    ensures HasSample(b) ==> exists c, j :: 0 <= c < |b| && 0 <= j < |b[c]| && Abs(b[c][j]) == m
    ensures !HasSample(b) ==> m == 0.0
  {
    if |b| == 0 then 0.0
    else
      var rest := MaxAbsBlock(b[1..]);
      var head := MaxAbs(b[0]);
      assert forall c :: 1 <= c < |b| ==> b[c] == b[1..][c - 1];
      assert HasSample(b[1..]) ==> HasSample(b) by {
        if HasSample(b[1..]) {
          var c :| 0 <= c < |b[1..]| && |b[1..][c]| > 0;
          assert |b[c + 1]| > 0;
        }
      }
      if head >= rest then
        if |b[0]| > 0 then head
        else
          assert !HasSample(b[1..]) ==> !HasSample(b);
          head
      else
        assert HasSample(b[1..]);
        var c, j :| 0 <= c < |b[1..]| && 0 <= j < |b[1..][c]| && Abs(b[1..][c][j]) == rest;
        assert Abs(b[c + 1][j]) == rest;
        rest
  }

  /** A value that bounds every sample magnitude and is attained is the block's peak. */
  lemma PeakIsUnique(b: Block, m: real)
    requires HasSample(b)
    requires forall c, j :: 0 <= c < |b| && 0 <= j < |b[c]| ==> Abs(b[c][j]) <= m
    requires exists c, j :: 0 <= c < |b| && 0 <= j < |b[c]| && Abs(b[c][j]) == m
    ensures MaxAbsBlock(b) == m
  {
  }

  /** Every sample of the block is zero exactly when its peak is zero. */
  lemma SilentIffZeroPeak(b: Block)
    ensures MaxAbsBlock(b) == 0.0 <==> forall c, j :: 0 <= c < |b| && 0 <= j < |b[c]| ==> b[c][j] == 0.0
  {
  }
}
