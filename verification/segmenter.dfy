/** The batch file detectors: a file read in overlapping blocks, every block-local hit made
    absolute by the running frame cursor, and the collected frames made unique and sorted. */
module Segmenter {
  import opened Faults
  import opened Seqs
  import opened Arith
  import opened Signal
  import opened Pcm
  import opened Kernel
  import opened Dedup
  import opened Detector

  /** What `sf.info` reports about a file. */
  datatype FileInfo = FileInfo(sampleRate: nat, channels: nat, frames: nat)

  /** Block length and the number of frames two neighbouring blocks share. */
  datatype Segmentation = Segmentation(blockSize: int, overlap: int)

  /** How far the frame cursor moves from one block to the next. */
  function Step(g: Segmentation): int
  {
    g.blockSize - g.overlap
  }

  /** `blocksize = samplerate` and `overlap = int(samplerate / 1000)`: one second of audio
      per block, one millisecond shared with the next. */
  function Segmenting(sampleRate: nat): (g: Segmentation)
    ensures g.blockSize == sampleRate
    ensures g.overlap * 1000 <= sampleRate < (g.overlap + 1) * 1000
    ensures 0 <= g.overlap <= g.blockSize
    ensures sampleRate >= 1 ==> 0 <= g.overlap < g.blockSize
    ensures g.overlap >= 2 <==> sampleRate >= 2000
  {
    Segmentation(sampleRate, TruncDiv(sampleRate, 1000))
  }

  /** The progress bar's `int(total_frames / (blocksize - overlap)) + 1`, computed before the
      guarded loop: a zero step raises. For a positive step it is the number of steps that
      cover the file, or one more. */
  function ProgressBlockCount(frames: nat, step: int): (r: Result<int>)
    ensures r.Err? <==> step == 0
    ensures r.Err? ==> r.fault == ZeroDivision
    ensures r.Ok? && step > 0 ==> (r.value - 1) * step <= frames < r.value * step
    ensures r.Ok? && step > 0 ==> CeilDiv(frames, step) <= r.value <= CeilDiv(frames, step) + 1
  {
    if step == 0 then Err(ZeroDivision)
    else if step > 0 then
      CeilNearTrunc(frames, step);
      Ok(TruncDiv(frames, step) + 1)
    else Ok(-TruncDiv(frames, -step) + 1)
  }

  /** A block every channel of which has a sample: the derivative accepts it. */
  predicate Readable(b: Block)
  {
    forall c :: 0 <= c < |b| ==> |b[c]| > 0
  }

  /** `_process_block`: derivative, aliased hit lists, and every entry of entry `c` for
      each channel `c`, shifted by the cursor. */
  function BlockRecords(b: Block, cursor: int, th: real): (r: Result<seq<int>>)
    ensures r.Ok? <==> Readable(b)
  {
    match CalcAbsDerivative(b)
    case Err(f) => Err(f)
    case Ok(d) => Ok(Shift(Concat(GetDiscontinuities(d, th)), cursor))
  }

  /** Frame `a` is recorded iff it is the cursor plus a local jump of the block. */
  lemma RecordIsJump(b: Block, cursor: int, th: real, a: int)
    requires Readable(b)
    ensures a in BlockRecords(b, cursor, th).value <==> JumpAt(b, th, a - cursor)
  {
    var d := CalcAbsDerivative(b).value;
    var merged := Concat(GetDiscontinuities(d, th));
    var own := Concat(PerChannelHits(d, th));
    var k := a - cursor;
    assert BlockRecords(b, cursor, th).value == Shift(merged, cursor);
    assert a in Shift(merged, cursor) <==> k in merged by {
      ShiftElems(merged, cursor, a);
    }
    assert k in merged <==> k in own by {
      AliasingHarmless(d, th);
      assert k in merged <==> k in Elems(merged);
      assert k in own <==> k in Elems(own);
    }
    assert k in own <==> JumpAt(b, th, k) by {
      MergedHits(d, th, k);
      HitIsJump(b, th, k);
    }
  }

  /** The recorded frames are exactly the cursor plus the block's local jumps. */
  lemma RecordsAreJumps(b: Block, cursor: int, th: real)
    requires Readable(b)
    ensures forall a :: a in BlockRecords(b, cursor, th).value <==> JumpAt(b, th, a - cursor)
  {
    forall a
      ensures a in BlockRecords(b, cursor, th).value <==> JumpAt(b, th, a - cursor)
    {
      RecordIsJump(b, cursor, th, a);
    }
  }

  lemma {:induction false} CopiesLength(ss: seq<seq<int>>, x: seq<int>)
    requires forall c :: 0 <= c < |ss| ==> ss[c] == x
    ensures |Concat(ss)| == |ss| * |x|
  {
    if |ss| > 0 {
      CopiesLength(ss[1..], x);
      assert |Concat(ss)| == |x| + (|ss| - 1) * |x|;
    }
  }

  /** Every merged hit is recorded once per channel: the aliased entries all hold the whole
      merged list. */
  lemma RecordedOncePerChannel(b: Block, cursor: int, th: real)
    requires Readable(b)
    ensures |BlockRecords(b, cursor, th).value|
         == |b| * |Concat(PerChannelHits(CalcAbsDerivative(b).value, th))|
  {
    var d := CalcAbsDerivative(b).value;
    AliasedEntries(d, th);
    CopiesLength(GetDiscontinuities(d, th), Concat(PerChannelHits(d, th)));
  }

  /** Why the block loop ended: the file ran out, or a block raised. */
  datatype Stop = Exhausted | Failed(fault: Fault)

  /** The records collected, how many blocks were processed, and why the loop ended. */
  datatype Pass = Pass(records: seq<int>, blocksRead: nat, stop: Stop)

  /** The `for block in sf.blocks(...)` loop from block `k` on, with the cursor advancing by
      `step` after every block. An exception inside `_process_block` ends the loop with the
      records collected so far. */
  function SegmentFrom(blocks: seq<Block>, step: int, th: real, k: nat, cursor: int, acc: seq<int>): (p: Pass)
    requires k <= |blocks|
    ensures k <= p.blocksRead <= |blocks|
    ensures p.stop.Exhausted? <==> p.blocksRead == |blocks|
    ensures forall j :: k <= j < p.blocksRead ==> Readable(blocks[j])
    ensures p.stop.Failed? ==> !Readable(blocks[p.blocksRead])
    decreases |blocks| - k
  {
    if k == |blocks| then Pass(acc, k, Exhausted)
    else
      match BlockRecords(blocks[k], cursor, th)
      case Err(f) => Pass(acc, k, Failed(f))
      case Ok(rs) => SegmentFrom(blocks, step, th, k + 1, cursor + step, acc + rs)
  }

  /** Frame `a` is a local jump of one of the blocks `lo .. hi - 1`, made absolute by that
      block's start `j * step`. */
  ghost predicate FoundIn(blocks: seq<Block>, step: int, th: real, lo: int, hi: int, a: int)
    requires 0 <= lo && hi <= |blocks|
  {
    exists j :: lo <= j < hi && JumpAt(blocks[j], th, a - j * step)
  }

  /** Peeling the first block off a range of blocks. */
  lemma FoundSplit(blocks: seq<Block>, step: int, th: real, lo: nat, hi: int, a: int)
    requires lo < hi <= |blocks|
    ensures FoundIn(blocks, step, th, lo, hi, a)
        <==> JumpAt(blocks[lo], th, a - lo * step) || FoundIn(blocks, step, th, lo + 1, hi, a)
  {
    if FoundIn(blocks, step, th, lo, hi, a) {
      var j :| lo <= j < hi && JumpAt(blocks[j], th, a - j * step);
      if j > lo {
        assert FoundIn(blocks, step, th, lo + 1, hi, a);
      }
    }
  }

  /** Block `k` starts at `k * step`, and the records are the block-local jumps shifted by
      their block's start. */
  lemma {:induction false} SegmentRecords(blocks: seq<Block>, step: int, th: real, k: nat, acc: seq<int>)
    requires k <= |blocks|
    ensures var p := SegmentFrom(blocks, step, th, k, k * step, acc);
      forall a :: a in p.records <==> a in acc || FoundIn(blocks, step, th, k, p.blocksRead, a)
    decreases |blocks| - k
  {
    var p := SegmentFrom(blocks, step, th, k, k * step, acc);
    if k < |blocks| && Readable(blocks[k]) {
      var rs := BlockRecords(blocks[k], k * step, th).value;
      assert p == SegmentFrom(blocks, step, th, k + 1, (k + 1) * step, acc + rs) by {
        assert (k + 1) * step == k * step + step;
      }
      SegmentRecords(blocks, step, th, k + 1, acc + rs);
      forall a
        ensures a in p.records <==> a in acc || FoundIn(blocks, step, th, k, p.blocksRead, a)
      {
        RecordsStep(blocks, step, th, k, p.blocksRead, acc, rs, a);
      }
    } else {
      assert p == Pass(acc, k, if k == |blocks| then Exhausted else Failed(CalcAbsDerivative(blocks[k]).fault));
    }
  }

  /** Block `k`'s records join the accumulated ones exactly as block `k` joins the range of
      blocks searched. */
  lemma RecordsStep(blocks: seq<Block>, step: int, th: real, k: nat, hi: int, acc: seq<int>, rs: seq<int>, a: int)
    requires k < hi <= |blocks| && Readable(blocks[k])
    requires rs == BlockRecords(blocks[k], k * step, th).value
    ensures (a in acc + rs || FoundIn(blocks, step, th, k + 1, hi, a))
        <==> (a in acc || FoundIn(blocks, step, th, k, hi, a))
  {
    RecordIsJump(blocks[k], k * step, th, a);
    FoundSplit(blocks, step, th, k, hi, a);
  }

  lemma PassRecord(blocks: seq<Block>, step: int, th: real, a: int)
    ensures var p := SegmentFrom(blocks, step, th, 0, 0, []);
      a in p.records <==> FoundIn(blocks, step, th, 0, p.blocksRead, a)
  {
    SegmentRecords(blocks, step, th, 0, []);
  }

  /** The records of a whole pass from the first block. */
  lemma PassRecords(blocks: seq<Block>, step: int, th: real)
    ensures var p := SegmentFrom(blocks, step, th, 0, 0, []);
      forall a :: a in p.records <==> FoundIn(blocks, step, th, 0, p.blocksRead, a)
  {
    SegmentRecords(blocks, step, th, 0, []);
  }

  /** What `open_file` leaves behind: the file with its segmentation, no file (the `_detector`
      copy prints the error and carries on), or a process exit with status 1 (the
      `detectors` and `discontinuity_detector` copies). */
  datatype Opened = Opened(info: FileInfo, seg: Segmentation) | NotOpen | Exited(code: int)

  /** `open_file` on what probing the file gave. */
  function OpenFile(probe: Result<FileInfo>, exitOnError: bool): (o: Opened)
    ensures o.Opened? <==> probe.Ok?
    ensures o.Opened? ==> o.info == probe.value && o.seg.blockSize == probe.value.sampleRate
    ensures o.Opened? && probe.value.sampleRate >= 1 ==> 1 <= Step(o.seg) <= o.seg.blockSize
    ensures o.Exited? <==> probe.Err? && exitOnError
    ensures o.Exited? ==> o.code == 1
  {
    match probe
    case Ok(info) => Opened(info, Segmenting(info.sampleRate))
    case Err(_) => if exitOnError then Exited(1) else NotOpen
  }

  /** How a run ends: the sorted unique frames, `None` for a file never opened, an uncaught
      exception, or a process exit. */
  datatype Outcome = Frames(indices: seq<int>) | NoFile | Crashed(fault: Fault) | Exit(code: int)

  /** `process_file`: the progress count first (unguarded), then the guarded block loop,
      then `list(set(...))` and `sort()` on whatever was recorded. */
  function ProcessFile(o: Opened, blocks: seq<Block>, th: real): (r: Outcome)
    ensures r.NoFile? <==> o.NotOpen?
    ensures r.Exit? <==> o.Exited?
    ensures r.Crashed? <==> o.Opened? && Step(o.seg) == 0
    ensures r.Crashed? ==> r.fault == ZeroDivision
    ensures r.Frames? ==> StrictlyAscending(r.indices)
  {
    match o
    case NotOpen => NoFile
    case Exited(code) => Exit(code)
    case Opened(info, seg) =>
      match ProgressBlockCount(info.frames, Step(seg))
      case Err(f) => Crashed(f)
      case Ok(_) =>
        var p := SegmentFrom(blocks, Step(seg), th, 0, 0, []);
        Frames(SortedUnique(p.records))
  }

  /** The blocks before `n` are all readable, and block `n`, if any, is not: the loop stops
      there. */
  ghost predicate FirstUnreadable(blocks: seq<Block>, n: int)
  {
    && 0 <= n <= |blocks|
    && (forall j :: 0 <= j < n ==> Readable(blocks[j]))
    && (n < |blocks| ==> !Readable(blocks[n]))
  }

  /** The frames a run reports are the block-local jumps, each shifted by its block's start,
      of every block up to the first one the derivative refuses; the partial list of a failed
      run is reported, not lost. */
  lemma ProcessFileFrames(o: Opened, blocks: seq<Block>, th: real)
    requires ProcessFile(o, blocks, th).Frames?
    ensures o.Opened?
    ensures exists n :: FirstUnreadable(blocks, n) && forall a ::
      a in ProcessFile(o, blocks, th).indices <==> FoundIn(blocks, Step(o.seg), th, 0, n, a)
  {
    var step := Step(o.seg);
    var p := SegmentFrom(blocks, step, th, 0, 0, []);
    var n := p.blocksRead;
    var r := ProcessFile(o, blocks, th).indices;
    assert r == SortedUnique(p.records);
    forall a
      ensures a in r <==> FoundIn(blocks, step, th, 0, n, a)
    {
      SameMember(p.records, a);
      PassRecord(blocks, step, th, a);
    }
    assert FirstUnreadable(blocks, n);
  }

  /** Sorting the set of a list keeps exactly its values. */
  lemma SameMember(xs: seq<int>, a: int)
    ensures a in SortedUnique(xs) <==> a in xs
  {
    assert a in SortedUnique(xs) <==> a in Elems(SortedUnique(xs));
    assert a in xs <==> a in Elems(xs);
  }

  /** `detect.py`'s `main`: the same loop inline, with no progress count and no guard
      around it; probing a missing file exits with status -1, and a block the derivative
      refuses crashes the script. */
  function DetectMain(probe: Result<FileInfo>, blocks: seq<Block>, th: real): (r: Outcome)
    ensures r.Exit? <==> probe.Err?
    ensures r.Exit? ==> r.code == -1
    ensures r.Crashed? <==> probe.Ok? && exists j :: 0 <= j < |blocks| && !Readable(blocks[j])
    ensures r.Frames? ==> StrictlyAscending(r.indices)
  {
    match probe
    case Err(_) => Exit(-1)
    case Ok(info) =>
      var p := SegmentFrom(blocks, Step(Segmenting(info.sampleRate)), th, 0, 0, []);
      match p.stop
      case Failed(f) => Crashed(f)
      case Exhausted => Frames(SortedUnique(p.records))
  }

  /** When every block is readable, the script and the classes report the same frames. */
  lemma MainAgreesWithClasses(info: FileInfo, blocks: seq<Block>, th: real, exitOnError: bool)
    requires info.sampleRate >= 1
    requires forall j :: 0 <= j < |blocks| ==> Readable(blocks[j])
    ensures DetectMain(Ok(info), blocks, th) == ProcessFile(OpenFile(Ok(info), exitOnError), blocks, th)
  {
  }

  /** The last frame of a block starting at `start`, one past: a full block, or the end of
      the file. */
  function BlockEnd(start: int, blockSize: int, frames: int): int
  {
    if start + blockSize < frames then start + blockSize else frames
  }

  /** Frames `lo .. hi - 1` of every channel. */
  function Window(x: Block, lo: int, hi: int): (w: Block)
    requires |x| >= 1 && Rectangular(x) && 0 <= lo <= hi <= |x[0]|
    ensures |w| == |x|
    ensures forall c :: 0 <= c < |x| ==> |w[c]| == hi - lo
    ensures forall c, i :: 0 <= c < |x| && 0 <= i < hi - lo ==> w[c][i] == x[c][lo + i]
  {
    seq(|x|, c requires 0 <= c < |x| => x[c][lo..hi])
  }

  /** The blocks `sf.blocks` yields for a file whose channels are the rows of `x`: block `k`
      holds frames `k * step` up to a full block or the end of the file, every block starts
      inside the file, and the last one reaches its end. */
  ghost predicate Sliced(x: Block, blocks: seq<Block>, g: Segmentation)
  {
    && |x| >= 1 && Rectangular(x)
    && Step(g) >= 1 && g.overlap >= 0
    && (|blocks| > 0 <==> |x[0]| > 0)
    && (|blocks| > 0 ==> (|blocks| - 1) * Step(g) + g.blockSize >= |x[0]|)
    && forall k :: 0 <= k < |blocks| ==>
         && 0 <= k * Step(g) < |x[0]|
         && blocks[k] == Window(x, k * Step(g), BlockEnd(k * Step(g), g.blockSize, |x[0]|))
  }

  /** Sliced blocks are never empty, so the derivative accepts every one of them. */
  lemma SlicedReadable(x: Block, blocks: seq<Block>, g: Segmentation)
    requires Sliced(x, blocks, g)
    ensures FirstUnreadable(blocks, |blocks|)
  {
    forall k, c | 0 <= k < |blocks| && 0 <= c < |blocks[k]|
      ensures |blocks[k][c]| > 0
    {
      assert k * Step(g) < BlockEnd(k * Step(g), g.blockSize, |x[0]|);
    }
  }

  /** A local jump of a block, shifted by the block's start, is a jump of the file: the
      derivative at a frame depends on that frame and the one before, and both lie in the
      block. Two blocks that share a frame report it as the same absolute frame. */
  lemma LocalJumpIsGlobal(x: Block, blocks: seq<Block>, g: Segmentation, th: real, k: int, a: int)
    requires Sliced(x, blocks, g) && 0 <= k < |blocks|
    requires JumpAt(blocks[k], th, a - k * Step(g))
    ensures JumpAt(x, th, a)
  {
    var s := k * Step(g);
    var e := BlockEnd(s, g.blockSize, |x[0]|);
    var i := a - s;
    var c :| 0 <= c < |blocks[k]| && 1 <= i <= |blocks[k][c]| - 2
      && Abs(blocks[k][c][i] - blocks[k][c][i - 1]) > th;
    assert blocks[k][c][i] == x[c][a] && blocks[k][c][i - 1] == x[c][a - 1];
    assert |x[c]| == |x[0]|;
  }

  lemma {:induction false} MulBelow(k: int, q: int, step: int)
    requires 0 <= k <= q && step >= 1
    ensures k * step <= q * step
  {
    assert q * step - k * step == (q - k) * step;
    MulNonNegative(q - k, step);
  }

  /** The block that starts within one step before frame `a`, or the last block when the
      blocks end earlier: the block whose interior holds `a` once blocks overlap. */
  function CoveringBlock(a: int, step: int, count: int): (k: int)
    requires a >= 1 && step >= 1 && count >= 1
    ensures 0 <= k < count
    ensures k * step <= a - 1
    ensures k == count - 1 || a - 1 < k * step + step
  {
    var q := (a - 1) / step;
    DivModOfSum(q, step, (a - 1) % step);
    if q < count then q
    else
      MulBelow(count - 1, q, step);
      count - 1
  }

  /** With an overlap of at least two frames every interior frame of the file is an interior
      frame of some block: the block that starts within one step before it. */
  lemma GlobalJumpIsFound(x: Block, blocks: seq<Block>, g: Segmentation, th: real, a: int)
    requires Sliced(x, blocks, g) && g.overlap >= 2
    requires JumpAt(x, th, a)
    ensures FoundIn(blocks, Step(g), th, 0, |blocks|, a)
  {
    var step := Step(g);
    var n := |x[0]|;
    var c :| 0 <= c < |x| && 1 <= a <= |x[c]| - 2 && Abs(x[c][a] - x[c][a - 1]) > th;
    assert |x[c]| == n && |blocks| > 0;
    var k := CoveringBlock(a, step, |blocks|);
    var s := k * step;
    var e := BlockEnd(s, g.blockSize, n);
    var i := a - s;
    assert 1 <= i <= e - s - 2 by {
      if k == |blocks| - 1 {
        assert s + g.blockSize >= n;
      }
    }
    assert |blocks[k][c]| == e - s;
    assert blocks[k][c][i] == x[c][a] && blocks[k][c][i - 1] == x[c][a - 1];
    assert JumpAt(blocks[k], th, a - k * step);
  }

  /** With an overlap of at most one frame, the first frame of every later block is interior
      to no block: it is the block's own frame 0, and the previous block's last frame or past
      it. A jump there is never reported. */
  lemma BoundaryFramesMissed(x: Block, blocks: seq<Block>, g: Segmentation, th: real, k: int)
    requires Sliced(x, blocks, g) && g.overlap <= 1
    requires 1 <= k < |blocks|
    ensures !FoundIn(blocks, Step(g), th, 0, |blocks|, k * Step(g))
  {
    forall j | 0 <= j < |blocks|
      ensures !JumpAt(blocks[j], th, k * Step(g) - j * Step(g))
    {
      NotInterior(x, blocks, g, k, j);
    }
  }

  /** Frame `k * step` is not an interior frame of block `j`. */
  lemma NotInterior(x: Block, blocks: seq<Block>, g: Segmentation, k: int, j: int)
    requires Sliced(x, blocks, g) && g.overlap <= 1
    requires 1 <= k < |blocks| && 0 <= j < |blocks|
    ensures forall c :: 0 <= c < |blocks[j]| ==>
      !(1 <= k * Step(g) - j * Step(g) <= |blocks[j][c]| - 2)
  {
    var step := Step(g);
    MultiplesApart(j, k, step);
    MultiplesApart(k, j, step);
    if j < k {
      assert |blocks[j]| == |x|;
      forall c | 0 <= c < |blocks[j]|
        ensures |blocks[j][c]| <= g.blockSize
      {
      }
    }
  }

  /** A frame is reported iff a block has it as a local jump, once every block is readable. */
  lemma SlicedFrames(x: Block, blocks: seq<Block>, g: Segmentation, info: FileInfo, th: real)
    requires Sliced(x, blocks, g)
    ensures ProcessFile(Opened(info, g), blocks, th).Frames?
    ensures forall a :: a in ProcessFile(Opened(info, g), blocks, th).indices
                   <==> FoundIn(blocks, Step(g), th, 0, |blocks|, a)
  {
    SlicedReadable(x, blocks, g);
    ProcessFileFrames(Opened(info, g), blocks, th);
    var n :| FirstUnreadable(blocks, n) && forall a ::
      a in ProcessFile(Opened(info, g), blocks, th).indices <==> FoundIn(blocks, Step(g), th, 0, n, a);
    assert n == |blocks|;
  }

  /** A frame found in some block is a jump of the file. */
  lemma FoundIsJump(x: Block, blocks: seq<Block>, g: Segmentation, th: real, a: int)
    requires Sliced(x, blocks, g) && FoundIn(blocks, Step(g), th, 0, |blocks|, a)
    ensures JumpAt(x, th, a)
  {
    var k :| 0 <= k < |blocks| && JumpAt(blocks[k], th, a - k * Step(g));
    LocalJumpIsGlobal(x, blocks, g, th, k, a);
  }

  /** Every frame the file classes report is a jump of the file. */
  lemma ProcessFileSound(x: Block, blocks: seq<Block>, info: FileInfo, th: real, exitOnError: bool)
    requires info.sampleRate >= 1 && Sliced(x, blocks, Segmenting(info.sampleRate))
    ensures var r := ProcessFile(OpenFile(Ok(info), exitOnError), blocks, th);
      r.Frames? && forall a :: a in r.indices ==> JumpAt(x, th, a)
  {
    var g := Segmenting(info.sampleRate);
    SlicedFrames(x, blocks, g, info, th);
    forall a | a in ProcessFile(Opened(info, g), blocks, th).indices
      ensures JumpAt(x, th, a)
    {
      FoundIsJump(x, blocks, g, th, a);
    }
  }

  /** At 2000 Hz and above the overlap is at least two frames, and the report is exactly the
      set of the file's jumps. */
  lemma ProcessFileExact(x: Block, blocks: seq<Block>, info: FileInfo, th: real, exitOnError: bool)
    requires info.sampleRate >= 2000 && Sliced(x, blocks, Segmenting(info.sampleRate))
    ensures var r := ProcessFile(OpenFile(Ok(info), exitOnError), blocks, th);
      r.Frames? && forall a :: a in r.indices <==> JumpAt(x, th, a)
  {
    var g := Segmenting(info.sampleRate);
    ProcessFileSound(x, blocks, info, th, exitOnError);
    SlicedFrames(x, blocks, g, info, th);
    forall a | JumpAt(x, th, a)
      ensures a in ProcessFile(Opened(info, g), blocks, th).indices
    {
      GlobalJumpIsFound(x, blocks, g, th, a);
    }
  }

  /** Below 2000 Hz a jump at the start of any block after the first is lost. */
  lemma ProcessFileMissesBoundary(x: Block, blocks: seq<Block>, info: FileInfo, th: real, exitOnError: bool, k: int)
    requires 1 <= info.sampleRate < 2000 && Sliced(x, blocks, Segmenting(info.sampleRate))
    requires 1 <= k < |blocks|
    ensures var r := ProcessFile(OpenFile(Ok(info), exitOnError), blocks, th);
      r.Frames? && k * Step(Segmenting(info.sampleRate)) !in r.indices
  {
    var g := Segmenting(info.sampleRate);
    SlicedFrames(x, blocks, g, info, th);
    BoundaryFramesMissed(x, blocks, g, th, k);
  }

  /** The two blocks `sf.blocks` yields for the 4 Hz example file below. */
  lemma BoundaryExampleSliced()
    ensures Sliced([[0.0, 0.0, 0.0, 0.0, 1.0, 1.0, 1.0, 1.0]],
                   [[[0.0, 0.0, 0.0, 0.0]], [[1.0, 1.0, 1.0, 1.0]]], Segmenting(4))
  {
    var x := [[0.0, 0.0, 0.0, 0.0, 1.0, 1.0, 1.0, 1.0]];
    assert Segmenting(4) == Segmentation(4, 0);
    assert x[0][0..4] == [0.0, 0.0, 0.0, 0.0] && x[0][4..8] == [1.0, 1.0, 1.0, 1.0];
    assert Window(x, 0, 4) == [x[0][0..4]];
    assert Window(x, 4, 8) == [x[0][4..8]];
  }

  /** A 4 Hz mono file that steps from 0 to 1 at frame 4, where the second block starts: the
      file has a jump there and the report is empty. */
  lemma BoundaryCounterexample()
    ensures var x := [[0.0, 0.0, 0.0, 0.0, 1.0, 1.0, 1.0, 1.0]];
      var blocks := [[[0.0, 0.0, 0.0, 0.0]], [[1.0, 1.0, 1.0, 1.0]]];
      var info := FileInfo(4, 1, 8);
      && Sliced(x, blocks, Segmenting(4)) && JumpAt(x, 0.1, 4)
      && ProcessFile(OpenFile(Ok(info), false), blocks, 0.1).Frames?
      && 4 !in ProcessFile(OpenFile(Ok(info), false), blocks, 0.1).indices
  {
    var x := [[0.0, 0.0, 0.0, 0.0, 1.0, 1.0, 1.0, 1.0]];
    var blocks := [[[0.0, 0.0, 0.0, 0.0]], [[1.0, 1.0, 1.0, 1.0]]];
    BoundaryExampleSliced();
    assert Abs(x[0][4] - x[0][3]) > 0.1;
    ProcessFileMissesBoundary(x, blocks, FileInfo(4, 1, 8), 0.1, false, 1);
  }

  /** The segmentation as evidently intended: at least two frames of overlap, so that the
      frame where a block starts is interior to the block before it; a block of at least
      three frames, so that the step stays positive. At 2000 Hz and above it is the
      segmentation the classes use. */
  function CorrectedSegmenting(sampleRate: nat): (g: Segmentation)
    ensures g.overlap >= 2 && Step(g) >= 1 && g.blockSize >= 3
    ensures g.blockSize >= sampleRate
    ensures sampleRate >= 2000 ==> g == Segmenting(sampleRate)
  {
    var s := Segmenting(sampleRate);
    Segmentation(if sampleRate < 3 then 3 else sampleRate, if s.overlap < 2 then 2 else s.overlap)
  }

  /** With the corrected segmentation the report is exactly the set of the file's jumps at
      every sample rate. */
  lemma CorrectedExact(x: Block, blocks: seq<Block>, info: FileInfo, th: real)
    requires Sliced(x, blocks, CorrectedSegmenting(info.sampleRate))
    ensures var r := ProcessFile(Opened(info, CorrectedSegmenting(info.sampleRate)), blocks, th);
      r.Frames? && forall a :: a in r.indices <==> JumpAt(x, th, a)
  {
    var g := CorrectedSegmenting(info.sampleRate);
    SlicedFrames(x, blocks, g, info, th);
    forall a
      ensures a in ProcessFile(Opened(info, g), blocks, th).indices <==> JumpAt(x, th, a)
    {
      if JumpAt(x, th, a) {
        GlobalJumpIsFound(x, blocks, g, th, a);
      }
      if FoundIn(blocks, Step(g), th, 0, |blocks|, a) {
        FoundIsJump(x, blocks, g, th, a);
      }
    }
  }
}
