/** The YIQ colour model and the perceptual distance both comparators use.

    The comparators compute delta = sqrt(dY^2 + dI^2 + dQ^2) and then only ever
    compare `delta > threshold` and write `min(255, floor(delta * 255))`.
    Both are decided here from the square d2 = delta * delta alone, exactly
    over the reals, so no square root is needed; ExceedsIsGreater and
    MagnitudeIsClampedFloor connect them back to delta. */
module Color {
  import opened Grid

  /** Luma-like channel. */
  function Y(r: real, g: real, b: real): real
  {
    r * 0.29889531 + g * 0.58662247 + b * 0.11448223
  }

  /** First chroma-like channel. */
  function I(r: real, g: real, b: real): real
  {
    r * 0.59597799 - g * 0.27417610 - b * 0.32180189
  }

  /** Second chroma-like channel. */
  function Q(r: real, g: real, b: real): real
  {
    r * 0.21147017 - g * 0.52261711 + b * 0.31114694
  }

  /** A colour with real channels: one pixel's, or the mean of a block. */
  datatype Rgb = Rgb(r: real, g: real, b: real)

  /** Squared Euclidean distance between two colours in YIQ space. */
  function DeltaSq(c1: Rgb, c2: Rgb): (d2: real)
    ensures d2 >= 0.0
    ensures c1 == c2 ==> d2 == 0.0
  {
    var dy := Y(c1.r, c1.g, c1.b) - Y(c2.r, c2.g, c2.b);
    var di := I(c1.r, c1.g, c1.b) - I(c2.r, c2.g, c2.b);
    var dq := Q(c1.r, c1.g, c1.b) - Q(c2.r, c2.g, c2.b);
    assert dy * dy >= 0.0 && di * di >= 0.0 && dq * dq >= 0.0;
    dy * dy + di * di + dq * dq
  }

  /** A grey pixel (equal channels) has no chroma: its I and Q are 0, and
      its Y is the grey level scaled by the sum of the Y weights. */
  lemma GreyHasNoChroma(v: real)
    ensures I(v, v, v) == 0.0 && Q(v, v, v) == 0.0
    ensures Y(v, v, v) == 1.00000001 * v
  {
  }

  /** Between two greys the distance is the square of the scaled
      difference of their levels. */
  lemma DistanceOfGreys(u: real, v: real)
    ensures DeltaSq(Rgb(u, u, u), Rgb(v, v, v)) == (1.00000001 * (u - v)) * (1.00000001 * (u - v))
  {
  }

  /** `delta > threshold`, for the non-negative delta whose square is d2. */
  predicate Exceeds(d2: real, threshold: real)
  {
    threshold < 0.0 || d2 > threshold * threshold
  }

  lemma SquareStrict(a: real, b: real)
    requires 0.0 <= b < a
    ensures b * b < a * a
  {
    var ab := a * b;
    assert b * b <= ab;
    assert ab < a * a;
  }

  /** On non-negative reals, squaring preserves and reflects order. */
  lemma SquareMonotone(a: real, b: real)
    requires 0.0 <= a && 0.0 <= b
    ensures a <= b <==> a * a <= b * b
  {
    if a <= b {
      assert a * a <= a * b;
      assert a * b <= b * b;
    } else {
      SquareStrict(a, b);
    }
  }

  /** Exceeds decides the comparators' test `delta > threshold`. */
  lemma ExceedsIsGreater(d2: real, delta: real, threshold: real)
    requires delta >= 0.0 && delta * delta == d2
    ensures Exceeds(d2, threshold) <==> delta > threshold
  {
    if threshold >= 0.0 {
      SquareMonotone(delta, threshold);
    }
  }

  /** The distance of a pair of colours is never above any threshold of zero
      or more when the colours are equal. */
  lemma SameColourNeverExceeds(c: Rgb, threshold: real)
    requires threshold >= 0.0
    ensures !Exceeds(DeltaSq(c, c), threshold)
  {
    assert threshold * threshold >= 0.0;
  }

  /** The largest k' <= k whose square is at most 65025 * d2 (or 0). */
  function MagnitudeFrom(d2: real, k: nat): (m: Byte)
    requires k <= 255
    ensures m <= k
    ensures m == k || (k as real) * (k as real) > 65025.0 * d2
  {
    if k == 0 || (k as real) * (k as real) <= 65025.0 * d2 then k
    else MagnitudeFrom(d2, k - 1)
  }

  /** `min(255, floor(delta * 255))`, for the delta whose square is d2. */
  function Magnitude(d2: real): Byte
  {
    MagnitudeFrom(d2, 255)
  }

  lemma {:induction false} MagnitudeFromIsMin(d2: real, delta: real, k: nat)
    requires delta >= 0.0 && delta * delta == d2 && k <= 255
    ensures MagnitudeFrom(d2, k) == Min(k, (delta * 255.0).Floor)
  {
    var f := (delta * 255.0).Floor;
    var kr := k as real;
    assert (delta * 255.0) * (delta * 255.0) == 65025.0 * d2;
    SquareMonotone(kr, delta * 255.0);
    if k > 0 && kr * kr > 65025.0 * d2 {
      assert k > f;
      MagnitudeFromIsMin(d2, delta, k - 1);
    } else if k > 0 {
      assert k <= f;
    }
  }

  /** Magnitude is the value pixelmatch writes for a differing pixel. */
  lemma MagnitudeIsClampedFloor(d2: real, delta: real)
    requires delta >= 0.0 && delta * delta == d2
    ensures Magnitude(d2) == Min(255, (delta * 255.0).Floor)
  {
    MagnitudeFromIsMin(d2, delta, 255);
  }

  /** A distance of at least 1/255 is written as a non-zero magnitude. */
  lemma {:induction false} MagnitudeNonzero(d2: real, k: nat)
    requires 65025.0 * d2 >= 1.0 && 1 <= k <= 255
    ensures MagnitudeFrom(d2, k) >= 1
  {
    if k > 1 && (k as real) * (k as real) > 65025.0 * d2 {
      MagnitudeNonzero(d2, k - 1);
    }
  }
}
