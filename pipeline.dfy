/** The worker's 'process' message: wraps the two RGBA buffers as images of
    the given size (failing when they do not fit), blurs both when the blur
    radius is positive, compares them block by block or pixel by pixel, and
    cleans the raw mask up with the morphology stage. The reply carries the
    cleaned mask, the comparator's count and the raw mask. */
module Pipeline {
  import opened Grid
  import opened Blur
  import opened PixelCompare
  import opened BlockCompare
  import opened Morphology

  /** The fields of a 'process' message other than the two buffers. */
  datatype Config = Config(threshold: real, blurRadius: int, useBlockComparison: bool,
                           blockSize: int, minRegionSize: int)

  /** Why a message is answered with an error. */
  datatype Error = ImageSizeMismatch

  /** The reply: a 'result' message or an 'error' message. */
  datatype Reply =
    | Result(diff: seq<Byte>, numDiffPixels: nat, diffArray: seq<Byte>)
    | Failure(error: Error)

  /** An RGBA buffer of `length` samples makes a w by h image. */
  predicate Fits(length: nat, w: int, h: int)
  {
    w > 0 && h > 0 && length == w * h * 4
  }

  /** The image the comparators see: blurred when the radius is positive. */
  function Prepared(s: seq<Byte>, w: nat, h: nat, radius: int): (p: seq<Byte>)
    requires |s| == w * h * 4
    ensures |p| == |s|
    ensures radius <= 0 ==> p == s
  {
    if radius > 0 then Blurred(s, w, h, radius) else s
  }

  /** The raw mask of the configured comparator. */
  function RawMask(a: seq<Byte>, b: seq<Byte>, w: nat, h: nat, cfg: Config): (m: seq<Byte>)
    requires |a| == w * h * 4 && |b| == w * h * 4
    requires cfg.useBlockComparison ==> cfg.blockSize > 0
    ensures |m| == w * h
  {
    if cfg.useBlockComparison then BlockMask(a, b, w, h, cfg.blockSize, cfg.threshold)
    else DiffMask(a, b, w * h, cfg.threshold)
  }

  /** The count the configured comparator returns. */
  function RawCount(a: seq<Byte>, b: seq<Byte>, w: nat, h: nat, cfg: Config): nat
    requires |a| == w * h * 4 && |b| == w * h * 4
    requires cfg.useBlockComparison ==> cfg.blockSize > 0
  {
    if cfg.useBlockComparison then multiset(BlockMask(a, b, w, h, cfg.blockSize, cfg.threshold))[255]
    else CountDiffering(a, b, cfg.threshold, w * h)
  }

  /** The message handler for a 'process' message. */
  method Process(before: array<Byte>, after: array<Byte>, width: int, height: int, cfg: Config)
    returns (reply: Reply)
    requires cfg.useBlockComparison ==> cfg.blockSize > 0
    ensures reply.Failure? <==> !Fits(before.Length, width, height) || !Fits(after.Length, width, height)
    ensures reply.Result? ==>
      var w, h := width as nat, height as nat;
      var a, b := Prepared(before[..], w, h, cfg.blurRadius), Prepared(after[..], w, h, cfg.blurRadius);
      reply.diffArray == RawMask(a, b, w, h, cfg) &&
      reply.numDiffPixels == RawCount(a, b, w, h, cfg) &&
      reply.diff == Cleaned(RawMask(a, b, w, h, cfg), w, h, cfg.minRegionSize)
  {
    if !Fits(before.Length, width, height) || !Fits(after.Length, width, height) {
      return Failure(ImageSizeMismatch);
    }
    var w, h := width as nat, height as nat;
    var processedBefore, processedAfter := before, after;
    if cfg.blurRadius > 0 {
      processedBefore := ApplyBlur(before, w, h, cfg.blurRadius);
      processedAfter := ApplyBlur(after, w, h, cfg.blurRadius);
    }
    var diff := new Byte[w * h](_ => 0);
    var numDiffPixels: nat;
    if cfg.useBlockComparison {
      numDiffPixels := Compare(processedBefore[..], processedAfter[..], diff, w, h, cfg.blockSize, cfg.threshold);
    } else {
      numDiffPixels := Pixelmatch(processedBefore[..], processedAfter[..], diff, w, h, cfg.threshold);
    }
    var processed := ApplyMorphology(diff, w, h, cfg.minRegionSize);
    return Result(processed[..], numDiffPixels, diff[..]);
  }

  /** Two identical images (threshold 0 or more) give an all-zero raw mask,
      a count of 0 and an all-zero cleaned mask, whatever the other settings. */
  lemma IdenticalImagesReportNothing(s: seq<Byte>, w: nat, h: nat, cfg: Config)
    requires |s| == w * h * 4 && cfg.threshold >= 0.0
    requires cfg.useBlockComparison ==> cfg.blockSize > 0
    ensures var p := Prepared(s, w, h, cfg.blurRadius);
      RawCount(p, p, w, h, cfg) == 0 &&
      (forall j :: 0 <= j < w * h ==> RawMask(p, p, w, h, cfg)[j] == 0) &&
      (forall j :: 0 <= j < w * h ==> Cleaned(RawMask(p, p, w, h, cfg), w, h, cfg.minRegionSize)[j] == 0)
  {
    var p := Prepared(s, w, h, cfg.blurRadius);
    var m := RawMask(p, p, w, h, cfg);
    if cfg.useBlockComparison {
      IdenticalImagesNoBlocks(p, w, h, cfg.blockSize, cfg.threshold);
      OccurrencesAreIndices(m, 255, {});
    } else {
      IdenticalImagesNoDifference(p, cfg.threshold, w * h);
    }
    ZeroMaskStaysZero(m, w, h, cfg.minRegionSize);
  }
}
