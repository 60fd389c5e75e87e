/** The detection kernel: absolute first difference, strict threshold scan of the interior
    samples, and the per-channel hit lists the scripts build (with their list aliasing). */
module Kernel {
  import opened Faults
  import opened Seqs
  import opened Signal

  /** `np.convolve(a, [h0, h1])`: the full convolution, one sample longer than `a`. */
  function Convolve2(a: Channel, h0: real, h1: real): (y: Channel)
    ensures |y| == |a| + 1
  {
    seq(|a| + 1, n requires 0 <= n <= |a| =>
      (if n < |a| then a[n] * h0 else 0.0) + (if n >= 1 then a[n - 1] * h1 else 0.0))
  }

  /** `np.abs(np.convolve(x, [-1, 1]))[:-1]` for one non-empty channel. */
  function ChannelDerivative(x: Channel): (d: Channel)
    requires |x| > 0
    ensures |d| == |x|
    ensures d[0] == Abs(x[0])
    ensures forall i {:trigger d[i]} :: 1 <= i < |x| ==> d[i] == Abs(x[i] - x[i - 1])
    ensures forall i :: 0 <= i < |x| ==> d[i] >= 0.0
  {
    var y := Convolve2(x, -1.0, 1.0);
    seq(|x|, i requires 0 <= i < |x| => Abs(y[i]))
  }

  /** `calc_abs_derivative`: the derivative of every channel. numpy's convolution raises on
      an empty channel. */
  function CalcAbsDerivative(b: Block): (r: Result<Block>)
    ensures r.Ok? <==> forall c :: 0 <= c < |b| ==> |b[c]| > 0
    ensures r.Ok? ==> |r.value| == |b|
    ensures r.Ok? ==> forall c :: 0 <= c < |b| ==> |r.value[c]| == |b[c]|
    ensures r.Ok? ==> forall c :: 0 <= c < |b| ==> r.value[c][0] == Abs(b[c][0])
    ensures r.Ok? ==> forall c, i {:trigger r.value[c][i]} :: 0 <= c < |b| && 1 <= i < |b[c]| ==>
      r.value[c][i] == Abs(b[c][i] - b[c][i - 1])
  {
    if exists c :: 0 <= c < |b| && |b[c]| == 0 then Err(EmptyArray)
    else Ok(seq(|b|, c requires 0 <= c < |b| => ChannelDerivative(b[c])))
  }

  /** Every derivative value is a magnitude. */
  lemma DerivativeNonNegative(b: Block)
    requires CalcAbsDerivative(b).Ok?
    ensures forall c, i :: 0 <= c < |b| && 0 <= i < |b[c]| ==> CalcAbsDerivative(b).value[c][i] >= 0.0
  {
  }

  /** The interior indices `i .. |d| - 2` whose derivative is strictly above `th`. */
  function ScanFrom(d: Channel, th: real, i: nat): (r: seq<int>)
    requires i >= 1
    ensures StrictlyAscending(r)
    ensures forall k :: k in r <==> i <= k < |d| - 1 && d[k] > th
    ensures |r| <= if |d| - 1 - i > 0 then |d| - 1 - i else 0
    ensures r == [] <==> forall k :: i <= k < |d| - 1 ==> d[k] <= th
    decreases |d| - i
  {
    if i >= |d| - 1 then []
    else
      var rest := ScanFrom(d, th, i + 1);
      if d[i] > th then
        assert forall j :: 0 <= j < |rest| ==> rest[j] in rest && rest[j] > i;
        [i] + rest
      else rest
  }

  /** One channel's hits: `[i + 1 for i, s in enumerate(d[1:-1]) if s > th]`. */
  function ChannelHits(d: Channel, th: real): (r: seq<int>)
    ensures StrictlyAscending(r)
    ensures forall k :: k in r <==> 1 <= k <= |d| - 2 && d[k] > th
    ensures |d| <= 2 ==> r == []
    ensures r == [] <==> forall k :: 1 <= k <= |d| - 2 ==> d[k] <= th
  {
    ScanFrom(d, th, 1)
  }

  /** The intended per-channel result: list `c` holds channel `c`'s hits and nothing else. */
  function PerChannelHits(d: Block, th: real): (r: seq<seq<int>>)
    ensures |r| == |d|
  {
    seq(|d|, c requires 0 <= c < |d| => ChannelHits(d[c], th))
  }

  /** Python list objects, addressed by reference. */
  type Heap = map<nat, seq<int>>

  /** The scan loop of `get_discontinuities`: channel `c` appends its hits to the list object
      `refs[c]`. */
  function AppendLoop(hits: seq<seq<int>>, refs: seq<nat>, heap: Heap, c: nat): (h: Heap)
    requires |refs| == |hits|
    requires forall k :: 0 <= k < |refs| ==> refs[k] in heap
    ensures h.Keys == heap.Keys
    decreases |hits| - c
  {
    if c >= |hits| then heap
    else AppendLoop(hits, refs, heap[refs[c] := heap[refs[c]] + hits[c]], c + 1)
  }

  /** The references of `[[]] * n`: every entry is the one list object at reference 0. */
  function SharedRefs(n: nat): (r: seq<nat>)
    ensures |r| == n && forall k :: 0 <= k < n ==> r[k] == 0
  {
    seq(n, k => 0)
  }

  /** The references of `[[] for _ in range(n)]`: entry `k` is its own list object `k`. */
  function FreshRefs(n: nat): (r: seq<nat>)
    ensures |r| == n && forall k :: 0 <= k < n ==> r[k] == k
  {
    seq(n, k requires 0 <= k < n => k)
  }

  /** `get_discontinuities` as written: `counts = [[]] * n` makes all `n` entries the same
      list object, so every channel appends to it. */
  function GetDiscontinuities(d: Block, th: real): (r: seq<seq<int>>)
    ensures |r| == |d|
  {
    var refs := SharedRefs(|d|);
    var heap := AppendLoop(PerChannelHits(d, th), refs, map[0 := []], 0);
    seq(|d|, c requires 0 <= c < |d| => heap[refs[c]])
  }

  /** `n` distinct empty list objects, at references `0 .. n - 1`. */
  function EmptyLists(n: nat): (h: Heap)
    ensures forall k: nat :: k in h <==> k < n
    ensures forall k :: k in h ==> h[k] == []
  {
    if n == 0 then map[] else EmptyLists(n - 1)[n - 1 := []]
  }

  /** `get_discontinuities` with one fresh list per channel (`[[] for _ in range(n)]`). */
  function GetDiscontinuitiesFresh(d: Block, th: real): (r: seq<seq<int>>)
    ensures |r| == |d|
  {
    var refs := FreshRefs(|d|);
    var heap := EmptyLists(|d|);
    var final := AppendLoop(PerChannelHits(d, th), refs, heap, 0);
    seq(|d|, c requires 0 <= c < |d| => final[refs[c]])
  }

  lemma {:induction false} AppendLoopShared(hits: seq<seq<int>>, refs: seq<nat>, heap: Heap, c: nat)
    requires |refs| == |hits| && c <= |hits| && 0 in heap
    requires forall k :: 0 <= k < |refs| ==> refs[k] == 0
    ensures AppendLoop(hits, refs, heap, c)[0] == heap[0] + Concat(hits[c..])
    decreases |hits| - c
  {
    if c < |hits| {
      var heap' := heap[0 := heap[0] + hits[c]];
      AppendLoopShared(hits, refs, heap', c + 1);
      assert hits[c..][1..] == hits[c + 1..];
    } else {
      assert hits[c..] == [];
    }
  }

  lemma {:induction false} AppendLoopDistinct(hits: seq<seq<int>>, refs: seq<nat>, heap: Heap, c: nat, k: int)
    requires |refs| == |hits| && c <= |hits|
    requires forall j :: 0 <= j < |refs| ==> refs[j] == j && j in heap
    requires 0 <= k < |refs|
    ensures AppendLoop(hits, refs, heap, c)[k] == if k < c then heap[k] else heap[k] + hits[k]
    decreases |hits| - c
  {
    if c < |hits| {
      var heap' := heap[refs[c] := heap[refs[c]] + hits[c]];
      AppendLoopDistinct(hits, refs, heap', c + 1, k);
    }
  }

  /** Because of the shared list, every entry of the result is the concatenation of all
      channels' hits in channel order. */
  lemma AliasedEntries(d: Block, th: real)
    ensures forall c :: 0 <= c < |d| ==> GetDiscontinuities(d, th)[c] == Concat(PerChannelHits(d, th))
  {
    var hits := PerChannelHits(d, th);
    AppendLoopShared(hits, SharedRefs(|d|), map[0 := []], 0);
    assert hits[0..] == hits;
  }

  /** With one list per channel each entry holds exactly that channel's hits. */
  lemma FreshEntries(d: Block, th: real)
    ensures GetDiscontinuitiesFresh(d, th) == PerChannelHits(d, th)
  {
    var hits := PerChannelHits(d, th);
    var heap := EmptyLists(|d|);
    var r := GetDiscontinuitiesFresh(d, th);
    forall c | 0 <= c < |d|
      ensures r[c] == hits[c]
    {
      AppendLoopDistinct(hits, FreshRefs(|d|), heap, 0, c);
      assert heap[c] == [];
    }
  }

  /** A two-channel block with a jump in channel 0 only: the aliased result reports the hit
      for channel 1 as well. */
  lemma AliasingCounterexample()
    ensures var d := [[0.0, 0.0, 1.0, 1.0], [0.0, 0.0, 0.0, 0.0]];
      GetDiscontinuities(d, 0.5) == [[2], [2]] && GetDiscontinuitiesFresh(d, 0.5) == [[2], []]
  {
    var d := [[0.0, 0.0, 1.0, 1.0], [0.0, 0.0, 0.0, 0.0]];
    assert ChannelHits(d[0], 0.5) == [2] by {
      assert ScanFrom(d[0], 0.5, 3) == [];
      assert ScanFrom(d[0], 0.5, 2) == [2];
    }
    assert ChannelHits(d[1], 0.5) == [] by {
      assert ScanFrom(d[1], 0.5, 3) == [];
      assert ScanFrom(d[1], 0.5, 2) == [];
    }
    AliasedEntries(d, 0.5);
    FreshEntries(d, 0.5);
    assert PerChannelHits(d, 0.5) == [[2], []];
    assert Concat(PerChannelHits(d, 0.5)) == [2] by {
      assert PerChannelHits(d, 0.5)[1..] == [[]];
      assert PerChannelHits(d, 0.5)[1..][1..] == [];
    }
  }

  /** `n` copies of the same list hold the values of that list (and none if `n == 0`). */
  lemma {:induction false} ConcatCopies(ss: seq<seq<int>>, x: seq<int>)
    requires forall c :: 0 <= c < |ss| ==> ss[c] == x
    ensures |ss| > 0 ==> Elems(Concat(ss)) == Elems(x)
    ensures |ss| == 0 ==> Concat(ss) == []
  {
    if |ss| > 0 {
      ConcatCopies(ss[1..], x);
    }
  }

  /** The set of values a caller gets by merging the aliased lists is the set of all channels'
      hits: the aliasing only repeats values, which a later set or windowed dedup removes. */
  lemma AliasingHarmless(d: Block, th: real)
    ensures Elems(Concat(GetDiscontinuities(d, th))) == Elems(Concat(PerChannelHits(d, th)))
  {
    AliasedEntries(d, th);
    ConcatCopies(GetDiscontinuities(d, th), Concat(PerChannelHits(d, th)));
    if |d| == 0 {
      assert PerChannelHits(d, th) == [];
    }
  }

  /** Frame `k` is a hit of some channel of a derivative block. */
  ghost predicate IsHit(d: Block, th: real, k: int)
  {
    exists c :: 0 <= c < |d| && 1 <= k <= |d[c]| - 2 && d[c][k] > th
  }

  /** The merged hit list holds exactly the frames that are a hit of some channel. */
  lemma MergedHits(d: Block, th: real, k: int)
    ensures k in Concat(PerChannelHits(d, th)) <==> IsHit(d, th, k)
  {
    ConcatElems(PerChannelHits(d, th), k);
    if IsHit(d, th, k) {
      var c :| 0 <= c < |d| && 1 <= k <= |d[c]| - 2 && d[c][k] > th;
      assert k in PerChannelHits(d, th)[c];
    }
  }

  /** Number of interior samples from index `i` on that are strictly above `th`. */
  function CountFrom(d: Channel, th: real, i: nat): nat
    requires i >= 1
    decreases |d| - i
  {
    if i >= |d| - 1 then 0
    else (if d[i] > th then 1 else 0) + CountFrom(d, th, i + 1)
  }

  /** `count_discontinuities` of the WAV script: one integer counter per channel
      (`[0] * n` holds integers, so nothing is shared). */
  function CountDiscontinuities(d: Block, th: real): (r: seq<nat>)
    ensures |r| == |d|
  {
    seq(|d|, c requires 0 <= c < |d| => CountFrom(d[c], th, 1))
  }

  lemma {:induction false} CountFromIsScanLength(d: Channel, th: real, i: nat)
    requires i >= 1
    ensures CountFrom(d, th, i) == |ScanFrom(d, th, i)|
    decreases |d| - i
  {
    if i < |d| - 1 {
      CountFromIsScanLength(d, th, i + 1);
    }
  }

  /** Each channel's count is the number of that channel's own hits, so it is at most the
      number of interior samples. */
  lemma CountsMatchOwnHits(d: Block, th: real)
    ensures forall c :: 0 <= c < |d| ==> CountDiscontinuities(d, th)[c] == |PerChannelHits(d, th)[c]|
    ensures forall c :: 0 <= c < |d| ==>
      CountDiscontinuities(d, th)[c] <= if |d[c]| > 2 then |d[c]| - 2 else 0
  {
    forall c | 0 <= c < |d|
      ensures CountDiscontinuities(d, th)[c] == |PerChannelHits(d, th)[c]|
    {
      CountFromIsScanLength(d[c], th, 1);
    }
  }
}
