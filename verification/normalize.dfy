/** Peak normalisation of a block, in the guarded and the unguarded variants of the code. */
module Normalize {
  import opened Faults
  import opened Signal

  /** A product with a positive factor has the sign of the other factor. */
  lemma SignOfProduct(q: real, m: real)
    requires m > 0.0
    ensures q > 0.0 <==> q * m > 0.0
    ensures q < 0.0 <==> q * m < 0.0
  {
    if q > 0.0 {
      assert q * m > 0.0;
    } else if q < 0.0 {
      assert (-q) * m > 0.0;
    } else {
      assert q * m == 0.0;
    }
  }

  /** The quotient `q` of `x` by a positive `m` compares with 0, 1 and -1 as `x` compares with 0,
      `m` and `-m`. */
  lemma QuotientOrder(x: real, m: real, q: real)
    requires m > 0.0 && q * m == x
    ensures q > 0.0 <==> x > 0.0
    ensures q < 0.0 <==> x < 0.0
    ensures q > 1.0 <==> x > m
    ensures q < 1.0 <==> x < m
    ensures q > -1.0 <==> x > -m
    ensures q < -1.0 <==> x < -m
  {
    assert (q > 0.0 <==> x > 0.0) && (q < 0.0 <==> x < 0.0) by {
      SignOfProduct(q, m);
    }
    assert (q > 1.0 <==> x > m) && (q < 1.0 <==> x < m) by {
      assert (q - 1.0) * m == x - m;
      SignOfProduct(q - 1.0, m);
    }
    assert (q > -1.0 <==> x > -m) && (q < -1.0 <==> x < -m) by {
      assert (q + 1.0) * m == x + m;
      SignOfProduct(q + 1.0, m);
    }
  }

  /** Division by a positive peak keeps signs and maps `[-m, m]` onto `[-1, 1]`. */
  lemma DivByPositive(x: real, m: real)
    requires m > 0.0
    ensures (x / m) * m == x
    ensures x / m > 0.0 <==> x > 0.0
    ensures x / m < 0.0 <==> x < 0.0
    ensures Abs(x) <= m ==> -1.0 <= x / m <= 1.0
    ensures Abs(x) == m ==> Abs(x / m) == 1.0
  {
    var q := x / m;
    assert q * m == x;
    QuotientOrder(x, m, q);
  }

  /** Every sample divided by `m`. */
  function Scale(b: Block, m: real): (r: Block)
    requires m != 0.0
    ensures |r| == |b|
    ensures forall c :: 0 <= c < |b| ==> |r[c]| == |b[c]|
    ensures forall c, j :: 0 <= c < |b| && 0 <= j < |b[c]| ==> r[c][j] == b[c][j] / m
  {
    seq(|b|, c requires 0 <= c < |b| => seq(|b[c]|, j requires 0 <= j < |b[c]| => b[c][j] / m))
  }

  /** The same shape: as many channels, each as long. */
  ghost predicate SameShape(a: Block, b: Block)
  {
    |a| == |b| && forall c :: 0 <= c < |a| ==> |a[c]| == |b[c]|
  }

  /** `normalize_data` of the packaged DSP helpers: divide by the block's peak magnitude,
      unless that peak is zero, in which case the block is returned as it is. The peak is
      `np.max` of the whole array, which raises on an empty array. */
  function NormalizeGuarded(b: Block): (r: Result<Block>)
    ensures r.Ok? <==> HasSample(b)
    ensures r.Ok? ==> SameShape(r.value, b)
    ensures r.Ok? && MaxAbsBlock(b) == 0.0 ==> r.value == b
    ensures r.Ok? ==> forall c, j :: 0 <= c < |b| && 0 <= j < |b[c]| ==>
      (r.value[c][j] > 0.0 <==> b[c][j] > 0.0) && (r.value[c][j] < 0.0 <==> b[c][j] < 0.0)
  {
    if !HasSample(b) then Err(EmptyArray)
    else
      var m := MaxAbsBlock(b);
      if m == 0.0 then Ok(b)
      else
        var r := Scale(b, m);
        assert forall c, j :: 0 <= c < |b| && 0 <= j < |b[c]| ==>
          (r[c][j] > 0.0 <==> b[c][j] > 0.0) && (r[c][j] < 0.0 <==> b[c][j] < 0.0) by {
          forall c, j | 0 <= c < |b| && 0 <= j < |b[c]| {
            DivByPositive(b[c][j], m);
          }
        }
        Ok(r)
  }

  /** A block with signal normalises into [-1, 1] and keeps a sample of magnitude exactly 1. */
  lemma NormalizedRange(b: Block)
    requires HasSample(b) && MaxAbsBlock(b) != 0.0
    ensures forall c, j :: 0 <= c < |b| && 0 <= j < |b[c]| ==>
      -1.0 <= NormalizeGuarded(b).value[c][j] <= 1.0
    ensures exists c, j :: 0 <= c < |b| && 0 <= j < |b[c]| && Abs(NormalizeGuarded(b).value[c][j]) == 1.0
  {
    GuardedIsScale(b);
    ScaledBounds(b, MaxAbsBlock(b));
    ScaledAttains(b, MaxAbsBlock(b));
  }

  lemma GuardedIsScale(b: Block)
    requires HasSample(b) && MaxAbsBlock(b) != 0.0
    ensures NormalizeGuarded(b) == Ok(Scale(b, MaxAbsBlock(b)))
  {
  }

  lemma ScaledBounds(b: Block, m: real)
    requires m == MaxAbsBlock(b) && m != 0.0
    ensures forall c, j :: 0 <= c < |b| && 0 <= j < |b[c]| ==> -1.0 <= Scale(b, m)[c][j] <= 1.0
  {
    var r := Scale(b, m);
    forall c, j | 0 <= c < |b| && 0 <= j < |b[c]|
      ensures -1.0 <= r[c][j] <= 1.0
    {
      DivByPositive(b[c][j], m);
    }
  }

  lemma ScaledAttains(b: Block, m: real)
    requires HasSample(b) && m == MaxAbsBlock(b) && m != 0.0
    ensures exists c, j :: 0 <= c < |b| && 0 <= j < |b[c]| && Abs(Scale(b, m)[c][j]) == 1.0
  {
    var c, j :| 0 <= c < |b| && 0 <= j < |b[c]| && Abs(b[c][j]) == m;
    DivByPositive(b[c][j], m);
    assert Abs(Scale(b, m)[c][j]) == 1.0;
  }

  /** Normalising a normalised block changes nothing. */
  lemma NormalizeIdempotent(b: Block)
    requires HasSample(b)
    ensures NormalizeGuarded(b).Ok?
    ensures NormalizeGuarded(NormalizeGuarded(b).value) == NormalizeGuarded(b)
  {
    var m := MaxAbsBlock(b);
    if m != 0.0 {
      var r := Scale(b, m);
      GuardedIsScale(b);
      var c0, j0 :| 0 <= c0 < |b| && 0 <= j0 < |b[c0]|;
      assert |r[c0]| > 0;
      assert HasSample(r);
      ScaledBounds(b, m);
      ScaledAttains(b, m);
      assert forall c, j :: 0 <= c < |r| && 0 <= j < |r[c]| ==> Abs(r[c][j]) <= 1.0;
      PeakIsUnique(r, 1.0);
      GuardedIsScale(r);
      ScaleByOne(r);
    }
  }

  lemma ScaleByOne(b: Block)
    ensures Scale(b, 1.0) == b
  {
    var r := Scale(b, 1.0);
    forall c | 0 <= c < |b|
      ensures r[c] == b[c]
    {
    }
  }

  /** The result of the unguarded `normalize_data` copies: a block of finite values, or, for
      a silent block, the all-NaN block that `0.0 / 0.0` produces in numpy. */
  datatype Scaled = Finite(block: Block) | NotANumber

  /** `normalize_data` without the zero guard (after `astype(float)`): divide by the peak
      magnitude whatever it is. A silent block becomes NaN instead of raising. */
  function NormalizeUnguarded(b: Block): (r: Result<Scaled>)
    ensures r.Ok? <==> HasSample(b)
    ensures r.Ok? ==> (r.value.NotANumber? <==> MaxAbsBlock(b) == 0.0)
  {
    if !HasSample(b) then Err(EmptyArray)
    else
      var m := MaxAbsBlock(b);
      if m == 0.0 then Ok(NotANumber) else Ok(Finite(Scale(b, m)))
  }

  /** On a block with signal the unguarded and the guarded versions agree. */
  lemma UnguardedAgreesWithGuarded(b: Block)
    requires HasSample(b) && MaxAbsBlock(b) != 0.0
    ensures NormalizeUnguarded(b) == Ok(Finite(NormalizeGuarded(b).value))
  {
  }

  /** A silent block: the guarded version returns it untouched, the unguarded one turns it
      into NaN. */
  lemma SilenceBecomesNaN(b: Block)
    requires HasSample(b)
    requires forall c, j :: 0 <= c < |b| && 0 <= j < |b[c]| ==> b[c][j] == 0.0
    ensures NormalizeUnguarded(b) == Ok(NotANumber)
    ensures NormalizeGuarded(b) == Ok(b)
  {
    SilentIffZeroPeak(b);
  }

  /** `(x / k) / (m / k) == x / m` for positive `k` and `m`. */
  lemma DivCancel(x: real, k: real, m: real)
    requires k > 0.0 && m > 0.0
    ensures (x / k) / (m / k) == x / m
  {
    var q := x / m;
    assert x == q * m;
    assert x / k == q * (m / k);
  }

  lemma AbsDiv(x: real, k: real)
    requires k > 0.0
    ensures Abs(x / k) == Abs(x) / k
  {
    DivByPositive(x, k);
    if x < 0.0 {
      assert -(x / k) == (-x) / k;
    }
  }

  lemma DivMonotone(x: real, y: real, k: real)
    requires k > 0.0 && x <= y
    ensures x / k <= y / k
  {
    DivByPositive(y - x, k);
    assert (y - x) / k == y / k - x / k;
  }

  /** Dividing a block by `k` divides its peak by `k`. */
  lemma ScaledPeak(b: Block, k: real)
    requires k > 0.0
    ensures MaxAbsBlock(Scale(b, k)) == MaxAbsBlock(b) / k
  {
    var s := Scale(b, k);
    var m := MaxAbsBlock(b);
    if HasSample(b) {
      forall c, j | 0 <= c < |s| && 0 <= j < |s[c]|
        ensures Abs(s[c][j]) <= m / k
      {
        AbsDiv(b[c][j], k);
        DivMonotone(Abs(b[c][j]), m, k);
      }
      var c1, j1 :| 0 <= c1 < |b| && 0 <= j1 < |b[c1]| && Abs(b[c1][j1]) == m;
      AbsDiv(b[c1][j1], k);
      assert HasSample(s) by { assert |s[c1]| > 0; }
      PeakIsUnique(s, m / k);
    } else {
      assert !HasSample(s);
    }
  }

  lemma ScaleSilence(b: Block, k: real)
    requires k > 0.0
    requires forall c, j :: 0 <= c < |b| && 0 <= j < |b[c]| ==> b[c][j] == 0.0
    ensures Scale(b, k) == b
  {
    var s := Scale(b, k);
    forall c | 0 <= c < |b|
      ensures s[c] == b[c]
    {
    }
  }

  lemma ScaleCompose(b: Block, k: real, m: real)
    requires k > 0.0 && m > 0.0
    ensures Scale(Scale(b, k), m / k) == Scale(b, m)
  {
    DivByPositive(m, k);
    var s := Scale(b, k);
    forall c | 0 <= c < |b|
      ensures Scale(s, m / k)[c] == Scale(b, m)[c]
    {
      forall j | 0 <= j < |b[c]|
        ensures Scale(s, m / k)[c][j] == Scale(b, m)[c][j]
      {
        DivCancel(b[c][j], k, m);
      }
    }
  }

  /** Normalisation forgets a positive scale factor: dividing the block by `k` first changes
      nothing. */
  lemma NormalizeScaleInvariant(b: Block, k: real)
    requires k > 0.0
    ensures NormalizeGuarded(Scale(b, k)) == NormalizeGuarded(b)
  {
    var s := Scale(b, k);
    var m := MaxAbsBlock(b);
    ScaledPeak(b, k);
    assert HasSample(s) == HasSample(b) by {
      if HasSample(b) {
        var c0, j0 :| 0 <= c0 < |b| && 0 <= j0 < |b[c0]|;
        assert |s[c0]| > 0;
      }
    }
    if HasSample(b) {
      if m == 0.0 {
        SilentIffZeroPeak(b);
        ScaleSilence(b, k);
      } else {
        DivByPositive(m, k);
        GuardedIsScale(b);
        GuardedIsScale(s);
        ScaleCompose(b, k, m);
      }
    }
  }

  /** `normalize_data` of the top-level utilities applied to an integer array: `np.max`
      raises on an empty array, and otherwise the in-place `data /= max_val` raises because
      numpy will not store a true-division result in an integer array. */
  function NormalizeIntsInPlace(rows: seq<seq<int>>): (r: Result<Block>)
    ensures r.Err?
    ensures r.fault == CastError <==> exists c :: 0 <= c < |rows| && |rows[c]| > 0
  {
    if exists c :: 0 <= c < |rows| && |rows[c]| > 0 then Err(CastError) else Err(EmptyArray)
  }
}
