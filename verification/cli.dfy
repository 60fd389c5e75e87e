/** The packaged command line: file mode reads overlapping blocks through the detector
    with a frame offset and merges the absolute indices; stream mode adds every positive
    per-chunk count to a running total. */
module Cli {
  import opened Faults
  import opened Seqs
  import opened Arith
  import opened Signal
  import opened Dedup
  import opened Detector
  import opened Segmenter

  /** `overlap = int(block_size / 10)`: a tenth of the block, truncated toward zero. */
  function CliSegmenting(blockSize: int): (g: Segmentation)
    ensures g.blockSize == blockSize
    ensures blockSize >= 0 ==> g.overlap * 10 <= blockSize < (g.overlap + 1) * 10
    ensures blockSize >= 1 ==> 0 <= g.overlap < blockSize && 1 <= Step(g) <= blockSize
    ensures blockSize >= 20 ==> g.overlap >= 2
  {
    Segmentation(blockSize, TruncDiv(blockSize, 10))
  }

  /** `math.ceil(total_frames / (block_size - overlap))`: the number of steps that cover the
      file; a zero step raises. */
  function TotalBlockCount(frames: nat, step: int): (r: Result<int>)
    ensures r.Err? <==> step == 0
    ensures r.Err? ==> r.fault == ZeroDivision
    ensures r.Ok? && step > 0 ==> (r.value - 1) * step < frames <= r.value * step
  {
    if step == 0 then Err(ZeroDivision) else Ok(CeilDiv(frames, step))
  }

  /** One block from the file reader and the frame it starts at. */
  datatype Chunk = Chunk(samples: Block, frameOffset: int)

  /** The absolute indices `detect_with_offset` returns for one block. */
  function Reported(det: GlitchDetector, samples: Block, offset: int): (r: Result<seq<int>>)
    ensures r.Ok? <==> Detect(det, samples).Ok?
    ensures r.Ok? ==> r.value == Shift(Detect(det, samples).value.sampleIndices, offset)
  {
    match DetectWithOffset(det, samples, offset)
    case Err(f) => Err(f)
    case Ok(result) => Ok(result.sampleIndices)
  }

  /** With a zero sample rate a block is only converted when it has no glitch. */
  lemma ZeroRateReportsNothing(det: GlitchDetector, samples: Block, offset: int)
    requires det.sampleRate == 0 && Reported(det, samples, offset).Ok?
    ensures Reported(det, samples, offset).value == []
  {
    assert Detect(det, samples).value.sampleIndices == [];
  }

  /** The outcome of `detect_with_offset` for every block, in reading order. */
  function DetectAll(det: GlitchDetector, chunks: seq<Chunk>): (r: seq<Result<seq<int>>>)
    ensures |r| == |chunks|
  {
    seq(|chunks|, j requires 0 <= j < |chunks| => Reported(det, chunks[j].samples, chunks[j].frameOffset))
  }

  /** With a zero sample rate no block reports an index. */
  lemma ZeroRateAll(det: GlitchDetector, chunks: seq<Chunk>)
    requires det.sampleRate == 0
    ensures forall j :: 0 <= j < |chunks| && DetectAll(det, chunks)[j].Ok? ==> DetectAll(det, chunks)[j].value == []
  {
    forall j | 0 <= j < |chunks| && DetectAll(det, chunks)[j].Ok?
      ensures DetectAll(det, chunks)[j].value == []
    {
      ZeroRateReportsNothing(det, chunks[j].samples, chunks[j].frameOffset);
    }
  }

  /** The indices of every block, in block order; the first block whose detection raised
      ends the run. */
  function CollectFrom(results: seq<Result<seq<int>>>, k: nat, acc: seq<int>): (r: Result<seq<int>>)
    requires k <= |results|
    ensures r.Ok? <==> forall j :: k <= j < |results| ==> results[j].Ok?
    decreases |results| - k
  {
    if k == |results| then Ok(acc)
    else
      match results[k]
      case Err(f) => Err(f)
      case Ok(indices) => CollectFrom(results, k + 1, acc + indices)
  }

  /** Frame `a` is one of the indices some block from `lo` on reported. */
  ghost predicate ReportedBy(results: seq<Result<seq<int>>>, lo: int, a: int)
    requires 0 <= lo
  {
    exists j :: lo <= j < |results| && results[j].Ok? && a in results[j].value
  }

  lemma {:induction false} CollectFromMembers(results: seq<Result<seq<int>>>, k: nat, acc: seq<int>, a: int)
    requires k <= |results| && CollectFrom(results, k, acc).Ok?
    ensures a in CollectFrom(results, k, acc).value <==> a in acc || ReportedBy(results, k, a)
    decreases |results| - k
  {
    if k < |results| {
      CollectFromMembers(results, k + 1, acc + results[k].value, a);
      if ReportedBy(results, k, a) {
        var j :| k <= j < |results| && results[j].Ok? && a in results[j].value;
        if j > k {
          assert ReportedBy(results, k + 1, a);
        }
      }
      if ReportedBy(results, k + 1, a) {
        var j :| k + 1 <= j < |results| && results[j].Ok? && a in results[j].value;
        assert ReportedBy(results, k, a);
      }
    }
  }

  /** What file mode prints: the number of unique indices and their timestamps. */
  datatype Report = Report(count: nat, indices: seq<int>, timestampsMs: seq<real>)

  /** How file mode ends: the report, or `sys.exit(1)` after any exception. */
  datatype FileRun = Printed(report: Report) | Quit(code: int)

  /** The end of `run_file_mode` once every block has been read: the merged indices are
      sorted and de-duplicated, and a zero sample rate raises on converting any of them. */
  function ReportResults(sampleRate: int, results: seq<Result<seq<int>>>): (r: FileRun)
    ensures r.Quit? ==> r.code == 1
    ensures r.Printed? ==> forall j :: 0 <= j < |results| ==> results[j].Ok?
    ensures r.Printed? ==> StrictlyAscending(r.report.indices)
    ensures r.Printed? ==> r.report.count == |r.report.indices| == |r.report.timestampsMs|
    ensures r.Printed? && sampleRate != 0 ==> forall i :: 0 <= i < |r.report.indices| ==>
      r.report.timestampsMs[i] == Milliseconds(r.report.indices[i], sampleRate)
  {
    match CollectFrom(results, 0, [])
    case Err(_) => Quit(1)
    case Ok(all) =>
      var unique := SortedUnique(all);
      if sampleRate == 0 then
        if |unique| > 0 then Quit(1) else Printed(Report(0, [], []))
      else Printed(Report(|unique|, unique, Timestamps(unique, sampleRate)))
  }

  /** `run_file_mode` on what probing the file gave and the blocks the reader yields. */
  function RunFileMode(probe: Result<FileInfo>, threshold: real, blockSize: int, chunks: seq<Chunk>): (r: FileRun)
    ensures r.Quit? ==> r.code == 1
    ensures r.Printed? ==> probe.Ok? && Step(CliSegmenting(blockSize)) != 0
  {
    match probe
    case Err(_) => Quit(1)
    case Ok(info) =>
      var g := CliSegmenting(blockSize);
      match TotalBlockCount(info.frames, Step(g))
      case Err(_) => Quit(1)
      case Ok(_) => ReportResults(info.sampleRate, DetectAll(GlitchDetector(info.sampleRate, threshold), chunks))
  }

  /** The unique indices of a completed run are exactly the indices some block reported. */
  lemma UniqueIsReported(results: seq<Result<seq<int>>>, a: int)
    requires CollectFrom(results, 0, []).Ok?
    ensures a in SortedUnique(CollectFrom(results, 0, []).value) <==> ReportedBy(results, 0, a)
  {
    CollectFromMembers(results, 0, [], a);
    SameMember(CollectFrom(results, 0, []).value, a);
  }

  /** The report is printed exactly when every block's detection succeeded, provided that
      with a zero sample rate no block reports an index. */
  lemma ResultsPrinted(sampleRate: int, results: seq<Result<seq<int>>>)
    requires sampleRate == 0 ==> forall j :: 0 <= j < |results| && results[j].Ok? ==> results[j].value == []
    ensures ReportResults(sampleRate, results).Printed? <==> forall j :: 0 <= j < |results| ==> results[j].Ok?
  {
    if CollectFrom(results, 0, []).Ok? && sampleRate == 0 {
      var unique := SortedUnique(CollectFrom(results, 0, []).value);
      if |unique| > 0 {
        UniqueIsReported(results, unique[0]);
      }
    }
  }

  /** Once the file opened with a non-zero step, the run ends as the blocks' outcomes say. */
  lemma RunFileModeReports(probe: Result<FileInfo>, threshold: real, blockSize: int, chunks: seq<Chunk>)
    requires probe.Ok? && Step(CliSegmenting(blockSize)) != 0
    ensures RunFileMode(probe, threshold, blockSize, chunks)
      == ReportResults(probe.value.sampleRate, DetectAll(GlitchDetector(probe.value.sampleRate, threshold), chunks))
  {
  }

  /** The detector's outcomes give a report exactly when every block's detection succeeded. */
  lemma DetectAllPrinted(det: GlitchDetector, chunks: seq<Chunk>)
    ensures ReportResults(det.sampleRate, DetectAll(det, chunks)).Printed? <==>
      forall j :: 0 <= j < |chunks| ==> DetectAll(det, chunks)[j].Ok?
  {
    if det.sampleRate == 0 {
      ZeroRateAll(det, chunks);
    }
    ResultsPrinted(det.sampleRate, DetectAll(det, chunks));
  }

  /** File mode ends with a report exactly when the file opened, the step is not zero and
      detection succeeded on every block; a zero sample rate needs no check of its own,
      because `detect` already raises on any block with a glitch. */
  lemma FileModePrints(probe: Result<FileInfo>, threshold: real, blockSize: int, chunks: seq<Chunk>)
    ensures RunFileMode(probe, threshold, blockSize, chunks).Printed? <==>
      && probe.Ok? && Step(CliSegmenting(blockSize)) != 0
      && forall j :: 0 <= j < |chunks| ==> DetectAll(GlitchDetector(probe.value.sampleRate, threshold), chunks)[j].Ok?
  {
    if probe.Ok? && Step(CliSegmenting(blockSize)) != 0 {
      RunFileModeReports(probe, threshold, blockSize, chunks);
      DetectAllPrinted(GlitchDetector(probe.value.sampleRate, threshold), chunks);
    }
  }

  /** The unique indices are exactly the absolute indices some block reported. */
  lemma FileModeIndices(probe: Result<FileInfo>, threshold: real, blockSize: int, chunks: seq<Chunk>, a: int)
    requires RunFileMode(probe, threshold, blockSize, chunks).Printed?
    ensures a in RunFileMode(probe, threshold, blockSize, chunks).report.indices
        <==> ReportedBy(DetectAll(GlitchDetector(probe.value.sampleRate, threshold), chunks), 0, a)
  {
    var det := GlitchDetector(probe.value.sampleRate, threshold);
    UniqueIsReported(DetectAll(det, chunks), a);
    if probe.value.sampleRate == 0 {
      ZeroRateAll(det, chunks);
    }
  }

  /** The blocks the reader yields, without their offsets. */
  function BlocksOf(chunks: seq<Chunk>): (r: seq<Block>)
    ensures |r| == |chunks| && forall j :: 0 <= j < |chunks| ==> r[j] == chunks[j].samples
  {
    seq(|chunks|, j requires 0 <= j < |chunks| => chunks[j].samples)
  }

  /** Block `j` is read at frame `j * step`. */
  predicate ReadAtSteps(chunks: seq<Chunk>, step: int)
  {
    forall j :: 0 <= j < |chunks| ==> chunks[j].frameOffset == j * step
  }

  /** The reader's blocks: the sliced file, each block tagged with the frame it starts at. */
  ghost predicate ReaderBlocks(x: Block, chunks: seq<Chunk>, g: Segmentation)
  {
    Sliced(x, BlocksOf(chunks), g) && ReadAtSteps(chunks, Step(g))
  }

  /** An index a block reports is a block-local index `detect` found, moved by the
      block's offset. */
  lemma ReportedIsShifted(det: GlitchDetector, samples: Block, offset: int, a: int)
    requires Reported(det, samples, offset).Ok? && a in Reported(det, samples, offset).value
    ensures Detect(det, samples).Ok? && a - offset in Detect(det, samples).value.sampleIndices
  {
    ShiftElems(Detect(det, samples).value.sampleIndices, offset, a);
  }

  /** An index a block reports is a jump of that block at the matching local position. */
  lemma ReportedIsLocalJump(det: GlitchDetector, samples: Block, offset: int, a: int)
    requires Reported(det, samples, offset).Ok? && a in Reported(det, samples, offset).value
    ensures JumpAt(samples, det.threshold, a - offset)
  {
    ReportedIsShifted(det, samples, offset, a);
  }

  /** The same, read off the outcomes of all blocks. */
  lemma ResultIsLocalJump(det: GlitchDetector, chunks: seq<Chunk>, j: int, a: int)
    requires 0 <= j < |chunks| && DetectAll(det, chunks)[j].Ok? && a in DetectAll(det, chunks)[j].value
    ensures JumpAt(chunks[j].samples, det.threshold, a - chunks[j].frameOffset)
  {
    ReportedIsLocalJump(det, chunks[j].samples, chunks[j].frameOffset, a);
  }

  /** A jump of block `j`, read at frame `j * step`, is found in block `j` at the position
      the segmenter's reasoning about found frames uses. */
  lemma ChunkJumpIsFound(chunks: seq<Chunk>, step: int, th: real, j: int, a: int)
    requires ReadAtSteps(chunks, step) && 0 <= j < |chunks|
    requires JumpAt(chunks[j].samples, th, a - chunks[j].frameOffset)
    ensures FoundIn(BlocksOf(chunks), step, th, 0, |chunks|, a)
  {
    var k := a - j * step;
    assert JumpAt(BlocksOf(chunks)[j], th, k) by {
      assert chunks[j].frameOffset == j * step;
      assert BlocksOf(chunks)[j] == chunks[j].samples;
    }
  }

  /** The same for a frame some block reported. */
  lemma ReportedIsFound(chunks: seq<Chunk>, step: int, det: GlitchDetector, a: int)
    requires ReadAtSteps(chunks, step) && ReportedBy(DetectAll(det, chunks), 0, a)
    ensures FoundIn(BlocksOf(chunks), step, det.threshold, 0, |chunks|, a)
  {
    var results := DetectAll(det, chunks);
    var j :| 0 <= j < |results| && results[j].Ok? && a in results[j].value;
    ResultIsLocalJump(det, chunks, j, a);
    ChunkJumpIsFound(chunks, step, det.threshold, j, a);
  }

  /** A frame some block of the sliced file reported is a jump of the file. */
  lemma ReportedIsJump(x: Block, chunks: seq<Chunk>, g: Segmentation, det: GlitchDetector, a: int)
    requires ReaderBlocks(x, chunks, g) && ReportedBy(DetectAll(det, chunks), 0, a)
    ensures JumpAt(x, det.threshold, a)
  {
    var blocks := BlocksOf(chunks);
    ReportedIsFound(chunks, Step(g), det, a);
    var j :| 0 <= j < |blocks| && JumpAt(blocks[j], det.threshold, a - j * Step(g));
    LocalJumpIsGlobal(x, blocks, g, det.threshold, j, a);
  }

  /** With at most one frame of overlap no block reports the frame where a later block
      starts. */
  lemma BoundaryNotReported(x: Block, chunks: seq<Chunk>, g: Segmentation, det: GlitchDetector, k: int)
    requires ReaderBlocks(x, chunks, g) && g.overlap <= 1 && 1 <= k < |chunks|
    ensures !ReportedBy(DetectAll(det, chunks), 0, k * Step(g))
  {
    BoundaryFramesMissed(x, BlocksOf(chunks), g, det.threshold, k);
    if ReportedBy(DetectAll(det, chunks), 0, k * Step(g)) {
      ReportedIsFound(chunks, Step(g), det, k * Step(g));
    }
  }

  /** Every frame file mode reports is a jump of the file. */
  lemma FileModeSound(x: Block, probe: Result<FileInfo>, threshold: real, blockSize: int, chunks: seq<Chunk>, a: int)
    requires RunFileMode(probe, threshold, blockSize, chunks).Printed?
    requires ReaderBlocks(x, chunks, CliSegmenting(blockSize))
    requires a in RunFileMode(probe, threshold, blockSize, chunks).report.indices
    ensures JumpAt(x, threshold, a)
  {
    var det := GlitchDetector(probe.value.sampleRate, threshold);
    FileModeIndices(probe, threshold, blockSize, chunks, a);
    ReportedIsJump(x, chunks, CliSegmenting(blockSize), det, a);
  }

  /** Below 20 frames per block the overlap is at most one frame, and a jump where a later
      block starts is never reported. */
  lemma FileModeMissesBoundary(x: Block, probe: Result<FileInfo>, threshold: real, blockSize: int, chunks: seq<Chunk>, k: int)
    requires RunFileMode(probe, threshold, blockSize, chunks).Printed?
    requires 1 <= blockSize < 20 && ReaderBlocks(x, chunks, CliSegmenting(blockSize))
    requires 1 <= k < |chunks|
    ensures k * Step(CliSegmenting(blockSize)) !in RunFileMode(probe, threshold, blockSize, chunks).report.indices
  {
    var g := CliSegmenting(blockSize);
    var det := GlitchDetector(probe.value.sampleRate, threshold);
    BoundaryNotReported(x, chunks, g, det, k);
    FileModeIndices(probe, threshold, blockSize, chunks, k * Step(g));
  }

  /** `glitch_callback`: a fresh detector per chunk; a positive count is added to the running
      total. The result does not depend on the frame number, which only shifts indices the
      callback does not keep. */
  function GlitchCallback(total: int, sampleRate: int, threshold: real, samples: Block, frame: int): (r: Result<int>)
    ensures r.Ok? <==> Detect(GlitchDetector(sampleRate, threshold), samples).Ok?
    ensures r.Err? ==> r.fault == Detect(GlitchDetector(sampleRate, threshold), samples).fault
    ensures r.Ok? ==> r.value == total + Detect(GlitchDetector(sampleRate, threshold), samples).value.totalCount
    ensures r.Ok? ==> r.value >= total
  {
    match DetectWithOffset(GlitchDetector(sampleRate, threshold), samples, frame)
    case Err(f) => Err(f)
    case Ok(result) => if result.totalCount > 0 then Ok(total + result.totalCount) else Ok(total)
  }
}
