/** The per-pixel comparator (pixelmatch): every pixel whose alpha values
    differ by more than 1, or whose YIQ distance exceeds the threshold, is
    counted as differing and written into a one-byte-per-pixel mask. */
module PixelCompare {
  import opened Grid
  import opened Color

  /** Red, green and blue of pixel p of an RGBA buffer, as reals. */
  function PixelRgb(s: seq<Byte>, p: nat): Rgb
    requires 4 * p + 3 < |s|
  {
    Rgb(s[4 * p] as real, s[4 * p + 1] as real, s[4 * p + 2] as real)
  }

  /** The alpha samples of pixel p differ by more than 1. */
  predicate AlphaDiffers(a: seq<Byte>, b: seq<Byte>, p: nat)
    requires 4 * p + 3 < |a| && 4 * p + 3 < |b|
  {
    var d := a[4 * p + 3] as int - b[4 * p + 3] as int;
    d > 1 || -d > 1
  }

  /** Squared YIQ distance of pixel p between the two buffers. */
  function PixelDeltaSq(a: seq<Byte>, b: seq<Byte>, p: nat): real
    requires 4 * p + 3 < |a| && 4 * p + 3 < |b|
  {
    DeltaSq(PixelRgb(a, p), PixelRgb(b, p))
  }

  /** Pixel p is counted as differing. */
  predicate PixelDiffers(a: seq<Byte>, b: seq<Byte>, p: nat, threshold: real)
    requires 4 * p + 3 < |a| && 4 * p + 3 < |b|
  {
    AlphaDiffers(a, b, p) || Exceeds(PixelDeltaSq(a, b, p), threshold)
  }

  /** The mask value written for pixel p: 255 on an alpha mismatch, the
      clamped distance magnitude when the distance exceeds the threshold,
      and 0 otherwise. */
  function PixelValue(a: seq<Byte>, b: seq<Byte>, p: nat, threshold: real): Byte
    requires 4 * p + 3 < |a| && 4 * p + 3 < |b|
  {
    if AlphaDiffers(a, b, p) then 255
    else if Exceeds(PixelDeltaSq(a, b, p), threshold) then Magnitude(PixelDeltaSq(a, b, p))
    else 0
  }

  /** The mask of the first n pixels. */
  function DiffMask(a: seq<Byte>, b: seq<Byte>, n: nat, threshold: real): (m: seq<Byte>)
    requires |a| >= 4 * n && |b| >= 4 * n
    ensures |m| == n
  {
    seq(n, p requires 0 <= p < n => PixelValue(a, b, p, threshold))
  }

  /** Number of differing pixels among the first k. */
  function CountDiffering(a: seq<Byte>, b: seq<Byte>, threshold: real, k: nat): (c: nat)
    requires |a| >= 4 * k && |b| >= 4 * k
    ensures c <= k
  {
    if k == 0 then 0
    else CountDiffering(a, b, threshold, k - 1) + (if PixelDiffers(a, b, k - 1, threshold) then 1 else 0)
  }

  /** The body of pixelmatch's pixel loop: the alpha test, then the colour
      distance against the threshold. */
  method ComparePixel(img1: seq<Byte>, img2: seq<Byte>, i: nat, threshold: real) returns (value: Byte, differs: bool)
    requires 4 * i + 3 < |img1| && 4 * i + 3 < |img2|
    ensures value == PixelValue(img1, img2, i, threshold)
    ensures differs == PixelDiffers(img1, img2, i, threshold)
  {
    if AlphaDiffers(img1, img2, i) {
      return 255, true;
    }
    var d2 := PixelDeltaSq(img1, img2, i);
    if Exceeds(d2, threshold) {
      return Magnitude(d2), true;
    }
    return 0, false;
  }

  /** The first n entries of the output hold the mask values of their pixels. */
  ghost predicate Written(output: array<Byte>, img1: seq<Byte>, img2: seq<Byte>, threshold: real, n: nat)
    reads output
  {
    n <= output.Length && 4 * n <= |img1| && 4 * n <= |img2| &&
    forall p :: 0 <= p < n ==> output[p] == PixelValue(img1, img2, p, threshold)
  }

  /** One row of pixelmatch, the w pixels from rowStart = y * w on: writes
      their mask values and adds the differing ones to the running count; the
      entries after the row are left as they were. */
  method CompareRow(img1: seq<Byte>, img2: seq<Byte>, output: array<Byte>, w: nat, rowStart: nat,
                    threshold: real, diffBefore: nat) returns (diff: nat)
    requires rowStart + w <= output.Length && 4 * output.Length <= |img1| && 4 * output.Length <= |img2|
    requires Written(output, img1, img2, threshold, rowStart)
    requires diffBefore == CountDiffering(img1, img2, threshold, rowStart)
    modifies output
    ensures Written(output, img1, img2, threshold, rowStart + w)
    ensures diff == CountDiffering(img1, img2, threshold, rowStart + w)
    ensures forall p :: rowStart + w <= p < output.Length ==> output[p] == old(output[p])
  {
    diff := diffBefore;
    var x := 0;
    while x < w
      invariant 0 <= x <= w
      invariant forall p :: 0 <= p < rowStart + x ==> output[p] == PixelValue(img1, img2, p, threshold)
      invariant diff == CountDiffering(img1, img2, threshold, rowStart + x)
      invariant forall p :: rowStart + x <= p < output.Length ==> output[p] == old(output[p])
    {
      var i := rowStart + x;
      var value, differs := ComparePixel(img1, img2, i, threshold);
      output[i] := value;
      if differs {
        diff := diff + 1;
      }
      x := x + 1;
    }
  }

  /** pixelmatch with an output buffer: fills the mask and returns the number
      of differing pixels. */
  method Pixelmatch(img1: seq<Byte>, img2: seq<Byte>, output: array<Byte>, w: nat, h: nat, threshold: real)
    returns (diff: nat)
    requires |img1| == w * h * 4 && |img2| == w * h * 4 && output.Length == w * h
    modifies output
    ensures output[..] == DiffMask(img1, img2, w * h, threshold)
    ensures diff == CountDiffering(img1, img2, threshold, w * h)
  {
    diff := 0;
    var y := 0;
    ghost var done := 0;
    while y < h
      invariant 0 <= y <= h && done == y * w
      invariant Written(output, img1, img2, threshold, done)
      invariant diff == CountDiffering(img1, img2, threshold, done)
    {
      RowFits(w, h, y);
      diff := CompareRow(img1, img2, output, w, y * w, threshold, diff);
      MulSucc(y, w);
      y := y + 1;
      done := done + w;
    }
    MulComm(h, w);
    assert output[..] == DiffMask(img1, img2, w * h, threshold);
  }

  /** An alpha mismatch is counted and written as 255, whatever the colours. */
  lemma AlphaMismatchIsFullDifference(a: seq<Byte>, b: seq<Byte>, p: nat, threshold: real)
    requires 4 * p + 3 < |a| && 4 * p + 3 < |b| && AlphaDiffers(a, b, p)
    ensures PixelDiffers(a, b, p, threshold) && PixelValue(a, b, p, threshold) == 255
  {
  }

  /** With equal alphas (within 1), for the distance delta that pixelmatch
      takes as a square root: the pixel differs exactly when delta exceeds the
      threshold, and it is written as min(255, floor(delta * 255)) when it
      does and as 0 when it does not. */
  lemma ColourDifference(a: seq<Byte>, b: seq<Byte>, p: nat, threshold: real, delta: real)
    requires 4 * p + 3 < |a| && 4 * p + 3 < |b| && !AlphaDiffers(a, b, p)
    requires delta >= 0.0 && delta * delta == PixelDeltaSq(a, b, p)
    ensures PixelDiffers(a, b, p, threshold) <==> delta > threshold
    ensures PixelValue(a, b, p, threshold) == if delta > threshold then Min(255, (delta * 255.0).Floor) else 0
  {
    ExceedsIsGreater(PixelDeltaSq(a, b, p), delta, threshold);
    MagnitudeIsClampedFloor(PixelDeltaSq(a, b, p), delta);
  }

  /** A non-zero mask value always marks a differing pixel. */
  lemma NonzeroMeansDiffering(a: seq<Byte>, b: seq<Byte>, p: nat, threshold: real)
    requires 4 * p + 3 < |a| && 4 * p + 3 < |b|
    ensures PixelValue(a, b, p, threshold) != 0 ==> PixelDiffers(a, b, p, threshold)
  {
  }

  /** With a threshold of at least 1/255, every differing pixel is written
      as a non-zero value, so the mask's non-zero pixels are exactly the
      differing ones. */
  lemma DifferingIsNonzero(a: seq<Byte>, b: seq<Byte>, p: nat, threshold: real)
    requires 4 * p + 3 < |a| && 4 * p + 3 < |b| && threshold >= 1.0 / 255.0
    ensures PixelDiffers(a, b, p, threshold) <==> PixelValue(a, b, p, threshold) != 0
  {
    var d2 := PixelDeltaSq(a, b, p);
    if !AlphaDiffers(a, b, p) && Exceeds(d2, threshold) {
      var t := threshold * 255.0;
      assert t >= 1.0;
      assert t * t >= 1.0 by {
        MulMonotoneReal(1.0, t, t);
      }
      assert 65025.0 * (threshold * threshold) == t * t;
      MagnitudeNonzero(d2, 255);
    }
  }

  lemma MulMonotoneReal(a: real, b: real, c: real)
    requires a <= b && c >= 0.0
    ensures a * c <= b * c
  {
    assert b * c - a * c == (b - a) * c;
  }

  /** Non-zero values among the first k mask entries. */
  function Nonzero(m: seq<Byte>, k: nat): nat
    requires k <= |m|
  {
    if k == 0 then 0 else Nonzero(m, k - 1) + if m[k - 1] != 0 then 1 else 0
  }

  /** The returned count is never below the number of non-zero mask values,
      and equals it when the threshold is at least 1/255. */
  lemma {:induction false} CountAgainstMask(a: seq<Byte>, b: seq<Byte>, n: nat, threshold: real, k: nat)
    requires |a| >= 4 * n && |b| >= 4 * n && k <= n
    ensures Nonzero(DiffMask(a, b, n, threshold), k) <= CountDiffering(a, b, threshold, k)
    ensures threshold >= 1.0 / 255.0 ==>
      Nonzero(DiffMask(a, b, n, threshold), k) == CountDiffering(a, b, threshold, k)
  {
    if k > 0 {
      CountAgainstMask(a, b, n, threshold, k - 1);
      MaskEntry(a, b, n, threshold, k - 1);
    }
  }

  /** Mask entry p is non-zero only for a differing pixel, and exactly for
      the differing pixels when the threshold is at least 1/255. */
  lemma MaskEntry(a: seq<Byte>, b: seq<Byte>, n: nat, threshold: real, p: nat)
    requires |a| >= 4 * n && |b| >= 4 * n && p < n
    ensures DiffMask(a, b, n, threshold)[p] != 0 ==> PixelDiffers(a, b, p, threshold)
    ensures threshold >= 1.0 / 255.0 ==>
      (DiffMask(a, b, n, threshold)[p] != 0 <==> PixelDiffers(a, b, p, threshold))
  {
    NonzeroMeansDiffering(a, b, p, threshold);
    if threshold >= 1.0 / 255.0 {
      DifferingIsNonzero(a, b, p, threshold);
    }
  }

  /** Comparing a buffer with itself (threshold 0 or more) finds nothing:
      the mask is all zero and the count is 0. */
  lemma {:induction false} IdenticalImagesNoDifference(a: seq<Byte>, threshold: real, k: nat)
    requires |a| >= 4 * k && threshold >= 0.0
    ensures CountDiffering(a, a, threshold, k) == 0
    ensures forall p :: 0 <= p < k ==> DiffMask(a, a, k, threshold)[p] == 0
  {
    if k > 0 {
      IdenticalImagesNoDifference(a, threshold, k - 1);
      SameColourNeverExceeds(PixelRgb(a, k - 1), threshold);
    }
    forall p | 0 <= p < k
      ensures DiffMask(a, a, k, threshold)[p] == 0
    {
      SameColourNeverExceeds(PixelRgb(a, p), threshold);
    }
  }
}
