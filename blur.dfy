/** The smoothing pre-filter (applyGaussianBlur): a uniform box blur of
    radius r whose window is clamped to the image, each channel averaged
    over the in-image samples only and rounded down. */
module Blur {
  import opened Grid

  predicate InImage(w: nat, h: nat, px: int, py: int)
  {
    0 <= px < w && 0 <= py < h
  }

  /** Index of channel c of pixel (x, y) in an RGBA buffer. */
  function Sample(w: nat, h: nat, x: int, y: int, c: int): (k: nat)
    requires InImage(w, h, x, y) && 0 <= c < 4
    ensures k < w * h * 4 && k / 4 == Cell(w, h, x, y) && k % 4 == c
  {
    Cell(w, h, x, y) * 4 + c
  }

  /** Sum of channel c over the in-image pixels of row py with column in [lo, hi). */
  function SpanSum(s: seq<Byte>, w: nat, h: nat, c: nat, py: int, lo: int, hi: int): nat
    requires |s| == w * h * 4 && c < 4
    decreases hi - lo
  {
    if hi <= lo then 0
    else
      var v := if InImage(w, h, hi - 1, py) then s[Sample(w, h, hi - 1, py, c)] else 0;
      SpanSum(s, w, h, c, py, lo, hi - 1) + v
  }

  /** Number of in-image pixels of row py with column in [lo, hi). */
  function SpanCount(w: nat, h: nat, py: int, lo: int, hi: int): nat
    decreases hi - lo
  {
    if hi <= lo then 0
    else SpanCount(w, h, py, lo, hi - 1) + (if InImage(w, h, hi - 1, py) then 1 else 0)
  }

  /** Sum of channel c over the in-image pixels with row in [lo, hi) and
      column in [x - r, x + r]. */
  function BoxSum(s: seq<Byte>, w: nat, h: nat, c: nat, x: int, r: nat, lo: int, hi: int): nat
    requires |s| == w * h * 4 && c < 4
    decreases hi - lo
  {
    if hi <= lo then 0
    else BoxSum(s, w, h, c, x, r, lo, hi - 1) + SpanSum(s, w, h, c, hi - 1, x - r, x + r + 1)
  }

  /** Number of in-image pixels with row in [lo, hi) and column in [x - r, x + r]. */
  function BoxCount(w: nat, h: nat, x: int, r: nat, lo: int, hi: int): nat
    decreases hi - lo
  {
    if hi <= lo then 0
    else BoxCount(w, h, x, r, lo, hi - 1) + SpanCount(w, h, hi - 1, x - r, x + r + 1)
  }

  /** Every in-image sample of channel c in the window of radius r around
      (x, y) lies in [low, high]. */
  ghost predicate WindowWithin(s: seq<Byte>, w: nat, h: nat, c: nat, x: int, y: int, r: nat, low: int, high: int)
    requires |s| == w * h * 4 && c < 4
  {
    forall px, py :: InImage(w, h, px, py) && x - r <= px <= x + r && y - r <= py <= y + r ==>
      low <= s[Sample(w, h, px, py, c)] <= high
  }

  lemma Distribute(a: int, n: int, m: int)
    ensures a * (n + m) == a * n + a * m
  {
  }

  lemma {:induction false} SpanBetween(s: seq<Byte>, w: nat, h: nat, c: nat, x: int, y: int, r: nat,
                                        py: int, hi: int, low: int, high: int)
    requires |s| == w * h * 4 && c < 4 && WindowWithin(s, w, h, c, x, y, r, low, high)
    requires y - r <= py <= y + r && x - r <= hi <= x + r + 1
    ensures low * SpanCount(w, h, py, x - r, hi) <= SpanSum(s, w, h, c, py, x - r, hi)
    ensures SpanSum(s, w, h, c, py, x - r, hi) <= high * SpanCount(w, h, py, x - r, hi)
    decreases hi - (x - r)
  {
    if hi > x - r {
      SpanBetween(s, w, h, c, x, y, r, py, hi - 1, low, high);
      var n := SpanCount(w, h, py, x - r, hi - 1);
      if InImage(w, h, hi - 1, py) {
        assert low <= s[Sample(w, h, hi - 1, py, c)] <= high;
        Distribute(low, n, 1);
        Distribute(high, n, 1);
      }
    }
  }

  lemma {:induction false} BoxBetween(s: seq<Byte>, w: nat, h: nat, c: nat, x: int, y: int, r: nat,
                                       hi: int, low: int, high: int)
    requires |s| == w * h * 4 && c < 4 && WindowWithin(s, w, h, c, x, y, r, low, high)
    requires y - r <= hi <= y + r + 1
    ensures low * BoxCount(w, h, x, r, y - r, hi) <= BoxSum(s, w, h, c, x, r, y - r, hi)
    ensures BoxSum(s, w, h, c, x, r, y - r, hi) <= high * BoxCount(w, h, x, r, y - r, hi)
    decreases hi - (y - r)
  {
    if hi > y - r {
      BoxBetween(s, w, h, c, x, y, r, hi - 1, low, high);
      SpanBetween(s, w, h, c, x, y, r, hi - 1, x + r + 1, low, high);
      var n, m := BoxCount(w, h, x, r, y - r, hi - 1), SpanCount(w, h, hi - 1, x - r, x + r + 1);
      assert BoxCount(w, h, x, r, y - r, hi) == n + m;
      Distribute(low, n, m);
      Distribute(high, n, m);
    }
  }

  lemma {:induction false} SpanCountPositive(w: nat, h: nat, x: int, py: int, lo: int, hi: int)
    requires InImage(w, h, x, py) && lo <= x < hi
    ensures SpanCount(w, h, py, lo, hi) >= 1
    decreases hi - lo
  {
    if hi - 1 != x {
      SpanCountPositive(w, h, x, py, lo, hi - 1);
    }
  }

  /** The clamped window of an in-image pixel holds at least that pixel. */
  lemma {:induction false} BoxCountPositive(w: nat, h: nat, x: int, y: int, r: nat, hi: int)
    requires InImage(w, h, x, y) && y < hi
    ensures BoxCount(w, h, x, r, y - r, hi) >= 1
    decreases hi - y
  {
    if hi - 1 != y {
      BoxCountPositive(w, h, x, y, r, hi - 1);
    } else {
      SpanCountPositive(w, h, x, y, x - r, x + r + 1);
    }
  }

  /** A quotient rounded down lies between bounds that hold the mean. */
  lemma DivBetween(sum: int, count: int, low: int, high: int)
    requires count > 0 && low * count <= sum <= high * count
    ensures low <= sum / count <= high
  {
    var q := sum / count;
    if q > high {
      MulMonotone(high + 1, q, count);
    } else if q < low {
      MulMonotone(q + 1, low, count);
    }
  }

  /** Channel c of pixel (x, y) after blurring with radius r: the window sum
      divided by the in-image sample count, rounded down. */
  function BlurredPixel(s: seq<Byte>, w: nat, h: nat, r: nat, x: int, y: int, c: nat): (v: Byte)
    requires |s| == w * h * 4 && InImage(w, h, x, y) && c < 4
  {
    BoxCountPositive(w, h, x, y, r, y + r + 1);
    BoxBetween(s, w, h, c, x, y, r, y + r + 1, 0, 255);
    DivBetween(BoxSum(s, w, h, c, x, r, y - r, y + r + 1), BoxCount(w, h, x, r, y - r, y + r + 1), 0, 255);
    BoxSum(s, w, h, c, x, r, y - r, y + r + 1) / BoxCount(w, h, x, r, y - r, y + r + 1)
  }

  /** Sample k of the blurred buffer. */
  function BlurredAt(s: seq<Byte>, w: nat, h: nat, r: nat, k: int): Byte
    requires |s| == w * h * 4 && 0 <= k < |s|
  {
    Coords(w, h, k / 4);
    BlurredPixel(s, w, h, r, (k / 4) % w, (k / 4) / w, k % 4)
  }

  /** The whole blurred buffer. */
  function Blurred(s: seq<Byte>, w: nat, h: nat, r: nat): (b: seq<Byte>)
    requires |s| == w * h * 4
  {
    seq(|s|, k requires 0 <= k < |s| => BlurredAt(s, w, h, r, k))
  }

  lemma BlurredAtSample(s: seq<Byte>, w: nat, h: nat, r: nat, x: int, y: int, c: nat)
    requires |s| == w * h * 4 && InImage(w, h, x, y) && c < 4
    ensures BlurredAt(s, w, h, r, Sample(w, h, x, y, c)) == BlurredPixel(s, w, h, r, x, y, c)
  {
    CellCoords(w, h, x, y);
  }

  /** Every blurred value lies between the least and the greatest sample of
      its clamped window. */
  lemma BlurWithinWindowRange(s: seq<Byte>, w: nat, h: nat, r: nat, x: int, y: int, c: nat, low: int, high: int)
    requires |s| == w * h * 4 && InImage(w, h, x, y) && c < 4
    requires WindowWithin(s, w, h, c, x, y, r, low, high)
    ensures low <= Blurred(s, w, h, r)[Sample(w, h, x, y, c)] <= high
  {
    BlurredAtSample(s, w, h, r, x, y, c);
    BoxCountPositive(w, h, x, y, r, y + r + 1);
    BoxBetween(s, w, h, c, x, y, r, y + r + 1, low, high);
    DivBetween(BoxSum(s, w, h, c, x, r, y - r, y + r + 1), BoxCount(w, h, x, r, y - r, y + r + 1), low, high);
  }

  /** With radius 0 the window is the pixel itself: blurring changes nothing. */
  lemma BlurRadiusZeroIsIdentity(s: seq<Byte>, w: nat, h: nat)
    requires |s| == w * h * 4
    ensures Blurred(s, w, h, 0) == s
  {
    forall k | 0 <= k < |s|
      ensures Blurred(s, w, h, 0)[k] == s[k]
    {
      var p := k / 4;
      Coords(w, h, p);
      var x, y, c := p % w, p / w, k % 4;
      assert Sample(w, h, x, y, c) == k;
      BlurWithinWindowRange(s, w, h, 0, x, y, c, s[k], s[k]);
    }
  }

  /** One row of the window (applyGaussianBlur's inner kx loop): the sums of the
      four channels over the in-image pixels of row py with column in
      [x - radius, x + radius], and their number. */
  method WindowRowSums(data: array<Byte>, w: nat, h: nat, x: int, py: int, radius: nat)
    returns (r: nat, g: nat, b: nat, a: nat, count: nat)
    requires data.Length == w * h * 4
    ensures r == SpanSum(data[..], w, h, 0, py, x - radius, x + radius + 1)
    ensures g == SpanSum(data[..], w, h, 1, py, x - radius, x + radius + 1)
    ensures b == SpanSum(data[..], w, h, 2, py, x - radius, x + radius + 1)
    ensures a == SpanSum(data[..], w, h, 3, py, x - radius, x + radius + 1)
    ensures count == SpanCount(w, h, py, x - radius, x + radius + 1)
  {
    ghost var s := data[..];
    r, g, b, a, count := 0, 0, 0, 0, 0;
    var kx: int := -(radius as int);
    while kx <= radius
      invariant -(radius as int) <= kx <= radius + 1
      invariant r == SpanSum(s, w, h, 0, py, x - radius, x + kx)
      invariant g == SpanSum(s, w, h, 1, py, x - radius, x + kx)
      invariant b == SpanSum(s, w, h, 2, py, x - radius, x + kx)
      invariant a == SpanSum(s, w, h, 3, py, x - radius, x + kx)
      invariant count == SpanCount(w, h, py, x - radius, x + kx)
    {
      var px := x + kx;
      if px >= 0 && px < w && py >= 0 && py < h {
        var idx := (py * w + px) * 4;
        assert idx == Sample(w, h, px, py, 0);
        r := r + data[idx];
        g := g + data[idx + 1];
        b := b + data[idx + 2];
        a := a + data[idx + 3];
        count := count + 1;
      }
      kx := kx + 1;
    }
  }

  /** Sums, over the clamped window of (x, y), of the four channels and the
      number of in-image samples. */
  method WindowSums(data: array<Byte>, w: nat, h: nat, x: int, y: int, radius: nat)
    returns (r: nat, g: nat, b: nat, a: nat, count: nat)
    requires data.Length == w * h * 4 && InImage(w, h, x, y)
    ensures r == BoxSum(data[..], w, h, 0, x, radius, y - radius, y + radius + 1)
    ensures g == BoxSum(data[..], w, h, 1, x, radius, y - radius, y + radius + 1)
    ensures b == BoxSum(data[..], w, h, 2, x, radius, y - radius, y + radius + 1)
    ensures a == BoxSum(data[..], w, h, 3, x, radius, y - radius, y + radius + 1)
    ensures count == BoxCount(w, h, x, radius, y - radius, y + radius + 1)
  {
    ghost var s := data[..];
    r, g, b, a, count := 0, 0, 0, 0, 0;
    var ky: int := -(radius as int);
    while ky <= radius
      invariant -(radius as int) <= ky <= radius + 1
      invariant r == BoxSum(s, w, h, 0, x, radius, y - radius, y + ky)
      invariant g == BoxSum(s, w, h, 1, x, radius, y - radius, y + ky)
      invariant b == BoxSum(s, w, h, 2, x, radius, y - radius, y + ky)
      invariant a == BoxSum(s, w, h, 3, x, radius, y - radius, y + ky)
      invariant count == BoxCount(w, h, x, radius, y - radius, y + ky)
    {
      var rowR, rowG, rowB, rowA, rowCount := WindowRowSums(data, w, h, x, y + ky, radius);
      r, g, b, a, count := r + rowR, g + rowG, b + rowB, a + rowA, count + rowCount;
      ky := ky + 1;
    }
  }

  /** The window sums of a pixel give its blurred samples. */
  lemma WindowMean(s: seq<Byte>, w: nat, h: nat, radius: nat, x: int, y: int, c: nat, sum: nat, count: nat)
    requires |s| == w * h * 4 && InImage(w, h, x, y) && c < 4
    requires sum == BoxSum(s, w, h, c, x, radius, y - radius, y + radius + 1)
    requires count == BoxCount(w, h, x, radius, y - radius, y + radius + 1)
    ensures count > 0 && sum / count == BlurredAt(s, w, h, radius, Sample(w, h, x, y, c))
  {
    BlurredAtSample(s, w, h, radius, x, y, c);
    BoxCountPositive(w, h, x, y, radius, y + radius + 1);
  }

  /** The body of applyGaussianBlur's column loop: the blurred samples of pixel
      (x, y) are written, every other sample of the result is left alone. */
  method BlurPixel(data: array<Byte>, result: array<Byte>, w: nat, h: nat, x: nat, y: nat, radius: nat)
    requires data.Length == w * h * 4 && result.Length == data.Length && data != result && InImage(w, h, x, y)
    modifies result
    ensures forall k :: 0 <= k < result.Length ==>
      result[k] == if Cell(w, h, x, y) * 4 <= k < Cell(w, h, x, y) * 4 + 4 then Blurred(data[..], w, h, radius)[k]
                   else old(result[k])
  {
    ghost var s := data[..];
    var r, g, b, a, count := WindowSums(data, w, h, x, y, radius);
    var idx := (y * w + x) * 4;
    assert idx == Cell(w, h, x, y) * 4;
    WindowMean(s, w, h, radius, x, y, 0, r, count);
    WindowMean(s, w, h, radius, x, y, 1, g, count);
    WindowMean(s, w, h, radius, x, y, 2, b, count);
    WindowMean(s, w, h, radius, x, y, 3, a, count);
    result[idx] := r / count;
    result[idx + 1] := g / count;
    result[idx + 2] := b / count;
    result[idx + 3] := a / count;
  }

  /** One row y of the blur (the body of applyGaussianBlur's row loop): writes
      the blurred samples of row y, given the rows above, and leaves the rows
      below as they were. */
  method BlurRow(data: array<Byte>, result: array<Byte>, w: nat, h: nat, y: nat, radius: nat)
    requires data.Length == w * h * 4 && result.Length == data.Length && data != result && y < h
    requires forall k :: 0 <= k < y * w * 4 ==> result[k] == Blurred(data[..], w, h, radius)[k]
    modifies result
    ensures (y + 1) * w * 4 <= result.Length
    ensures forall k :: 0 <= k < (y + 1) * w * 4 ==> result[k] == Blurred(data[..], w, h, radius)[k]
    ensures forall k :: (y + 1) * w * 4 <= k < result.Length ==> result[k] == old(result[k])
  {
    ghost var blurred := Blurred(data[..], w, h, radius);
    MulMonotone(y + 1, h, w);
    var x := 0;
    while x < w
      invariant 0 <= x <= w
      invariant forall k :: 0 <= k < (y * w + x) * 4 ==> result[k] == blurred[k]
      invariant forall k :: (y * w + x) * 4 <= k < result.Length ==> result[k] == old(result[k])
    {
      BlurPixel(data, result, w, h, x, y, radius);
      assert Cell(w, h, x, y) == y * w + x;
      x := x + 1;
    }
    assert (y * w + w) * 4 == (y + 1) * w * 4;
  }

  /** applyGaussianBlur: blurs a copy of the RGBA buffer into a fresh one;
      the input buffer is never written. */
  method ApplyBlur(src: array<Byte>, w: nat, h: nat, radius: nat) returns (result: array<Byte>)
    requires src.Length == w * h * 4
    ensures fresh(result)
    ensures result[..] == Blurred(src[..], w, h, radius)
  {
    var data := new Byte[src.Length](i requires 0 <= i < src.Length reads src => src[i]);
    assert data[..] == src[..];
    result := new Byte[w * h * 4](_ => 0);
    var y := 0;
    while y < h
      invariant 0 <= y <= h && data[..] == src[..]
      invariant forall k :: 0 <= k < y * w * 4 ==> result[k] == Blurred(src[..], w, h, radius)[k]
    {
      BlurRow(data, result, w, h, y, radius);
      y := y + 1;
    }
    assert h * w * 4 == result.Length;
    assert result[..] == Blurred(src[..], w, h, radius);
  }
}
