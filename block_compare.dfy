/** The block comparator (blockCompare): the image is cut into square tiles
    of side blockSize (clipped at the right and bottom edges); a tile whose
    mean colour in the two images is further apart than the threshold in
    YIQ space is marked 255 in every one of its pixels, any other tile 0,
    and the returned count is the number of pixels in marked tiles. */
module BlockCompare {
  import opened Grid
  import opened Color
  import opened Blur
  import opened PixelCompare

  /** Sum of channel c over columns [x0, x1) and rows [y0, y1). */
  function RectSum(s: seq<Byte>, w: nat, h: nat, c: nat, x0: int, x1: int, y0: int, y1: int): nat
    requires |s| == w * h * 4 && c < 4
    decreases y1 - y0
  {
    if y1 <= y0 then 0
    else RectSum(s, w, h, c, x0, x1, y0, y1 - 1) + SpanSum(s, w, h, c, y1 - 1, x0, x1)
  }

  /** Column or row just past the tile starting at `start`, clipped at `limit`. */
  function TileEnd(start: int, bs: nat, limit: int): int
  {
    Min(start + bs, limit)
  }

  lemma PositiveProduct(a: int, b: int)
    requires a > 0 && b > 0
    ensures a * b > 0
  {
    MulMonotone(1, a, b);
  }

  /** Number of pixels in the tile at (left, top). */
  function TileArea(w: nat, h: nat, bs: nat, left: nat, top: nat): (n: nat)
    requires bs > 0 && left < w && top < h
    ensures n > 0
  {
    var xe, ye := TileEnd(left, bs, w), TileEnd(top, bs, h);
    PositiveProduct(ye - top, xe - left);
    (ye - top) * (xe - left)
  }

  /** Mean red, green and blue of the tile at (left, top), over the reals. */
  function TileMean(s: seq<Byte>, w: nat, h: nat, bs: nat, left: nat, top: nat): Rgb
    requires |s| == w * h * 4 && bs > 0 && left < w && top < h
  {
    var xe, ye := TileEnd(left, bs, w), TileEnd(top, bs, h);
    var n := TileArea(w, h, bs, left, top) as real;
    Rgb(RectSum(s, w, h, 0, left, xe, top, ye) as real / n,
        RectSum(s, w, h, 1, left, xe, top, ye) as real / n,
        RectSum(s, w, h, 2, left, xe, top, ye) as real / n)
  }

  /** The tile at (left, top) differs between the two images. */
  predicate TileDiffers(a: seq<Byte>, b: seq<Byte>, w: nat, h: nat, bs: nat, left: nat, top: nat, threshold: real)
    requires |a| == w * h * 4 && |b| == w * h * 4 && bs > 0 && left < w && top < h
  {
    Exceeds(DeltaSq(TileMean(a, w, h, bs, left, top), TileMean(b, w, h, bs, left, top)), threshold)
  }

  lemma DivBounds(x: nat, bs: nat)
    requires bs > 0
    ensures (x / bs) * bs <= x < (x / bs) * bs + bs
  {
  }

  /** The quotient of x by bs is the k with k * bs <= x < (k + 1) * bs. */
  lemma {:induction false} DivUnique(x: nat, bs: nat, k: nat)
    requires bs > 0 && k * bs <= x < k * bs + bs
    ensures x / bs == k
  {
    var q := x / bs;
    DivBounds(x, bs);
    if q > k {
      MulMonotone(k + 1, q, bs);
      Distribute(bs, k, 1);
      assert false;
    } else if q < k {
      MulMonotone(q + 1, k, bs);
      Distribute(bs, q, 1);
      assert false;
    }
  }

  /** First column (or row) of the tile holding column (or row) x. */
  function TileStart(x: nat, bs: nat): (t: nat)
    requires bs > 0
    ensures t <= x < t + bs
  {
    DivBounds(x, bs);
    (x / bs) * bs
  }

  /** The mask value of pixel p: 255 when its tile differs, 0 otherwise. */
  function BlockValue(a: seq<Byte>, b: seq<Byte>, w: nat, h: nat, bs: nat, threshold: real, p: int): (v: Byte)
    requires |a| == w * h * 4 && |b| == w * h * 4 && bs > 0 && 0 <= p < w * h
    ensures v == 0 || v == 255
  {
    Coords(w, h, p);
    if TileDiffers(a, b, w, h, bs, TileStart(p % w, bs), TileStart(p / w, bs), threshold) then 255 else 0
  }

  /** The whole mask. */
  function BlockMask(a: seq<Byte>, b: seq<Byte>, w: nat, h: nat, bs: nat, threshold: real): (m: seq<Byte>)
    requires |a| == w * h * 4 && |b| == w * h * 4 && bs > 0
    ensures |m| == w * h
  {
    seq(w * h, p requires 0 <= p < w * h => BlockValue(a, b, w, h, bs, threshold, p))
  }

  /** Pixel p lies in columns [x0, x1) and rows [y0, y1). */
  predicate InRect(w: nat, p: int, x0: int, x1: int, y0: int, y1: int)
    requires w > 0
  {
    x0 <= p % w < x1 && y0 <= p / w < y1
  }

  /** Pixel p is in a tile the loops have finished: a band of rows above
      `top`, or the band starting at `top` left of column `left`. */
  predicate Processed(w: nat, bs: nat, p: int, top: int, left: int)
  {
    w > 0 && (p / w < top || (p / w < top + bs && p % w < left))
  }

  /** A pixel inside the tile whose corner is at a multiple k of the block
      size belongs to that tile. */
  lemma TileOfPixel(bs: nat, x: nat, k: nat)
    requires bs > 0 && k * bs <= x < k * bs + bs
    ensures TileStart(x, bs) == k * bs
  {
    DivUnique(x, bs, k);
  }

  /** One more column extends a row sum by that pixel's sample. */
  lemma SpanStep(s: seq<Byte>, w: nat, h: nat, c: nat, y: int, lo: int, x: int)
    requires |s| == w * h * 4 && c < 4 && InImage(w, h, x, y) && lo <= x
    ensures SpanSum(s, w, h, c, y, lo, x + 1) == SpanSum(s, w, h, c, y, lo, x) + s[Sample(w, h, x, y, c)]
  {
  }

  /** Sums channels 0..2 of both images over columns [left, xe) of row y,
      and counts the pixels summed. */
  method RowSums(img1: seq<Byte>, img2: seq<Byte>, w: nat, h: nat, left: nat, xe: nat, y: nat)
    returns (r1: nat, g1: nat, b1: nat, r2: nat, g2: nat, b2: nat, n: nat)
    requires |img1| == w * h * 4 && |img2| == w * h * 4 && left <= xe <= w && y < h
    ensures r1 == SpanSum(img1, w, h, 0, y, left, xe) && g1 == SpanSum(img1, w, h, 1, y, left, xe)
    ensures b1 == SpanSum(img1, w, h, 2, y, left, xe) && r2 == SpanSum(img2, w, h, 0, y, left, xe)
    ensures g2 == SpanSum(img2, w, h, 1, y, left, xe) && b2 == SpanSum(img2, w, h, 2, y, left, xe)
    ensures n == xe - left
  {
    r1, g1, b1, r2, g2, b2, n := 0, 0, 0, 0, 0, 0, 0;
    var x := left;
    while x < xe
      invariant left <= x <= xe && n == x - left
      invariant r1 == SpanSum(img1, w, h, 0, y, left, x) && g1 == SpanSum(img1, w, h, 1, y, left, x)
      invariant b1 == SpanSum(img1, w, h, 2, y, left, x) && r2 == SpanSum(img2, w, h, 0, y, left, x)
      invariant g2 == SpanSum(img2, w, h, 1, y, left, x) && b2 == SpanSum(img2, w, h, 2, y, left, x)
    {
      var pos := Cell(w, h, x, y) * 4;
      SpanStep(img1, w, h, 0, y, left, x);
      SpanStep(img1, w, h, 1, y, left, x);
      SpanStep(img1, w, h, 2, y, left, x);
      SpanStep(img2, w, h, 0, y, left, x);
      SpanStep(img2, w, h, 1, y, left, x);
      SpanStep(img2, w, h, 2, y, left, x);
      r1, g1, b1 := r1 + img1[pos], g1 + img1[pos + 1], b1 + img1[pos + 2];
      r2, g2, b2 := r2 + img2[pos], g2 + img2[pos + 1], b2 + img2[pos + 2];
      n := n + 1;
      x := x + 1;
    }
  }

  /** Pixels in rows [y0, y1) of a span `cols` pixels wide, row by row. */
  function RowsArea(y0: int, y1: int, cols: nat): nat
    decreases y1 - y0
  {
    if y1 <= y0 then 0 else RowsArea(y0, y1 - 1, cols) + cols
  }

  lemma RowsAreaNext(y0: int, y: int, cols: nat)
    requires y0 <= y
    ensures RowsArea(y0, y + 1, cols) == RowsArea(y0, y, cols) + cols
  {
  }

  lemma {:induction false} RowsAreaIsProduct(y0: int, y1: int, cols: nat)
    requires y0 <= y1
    ensures RowsArea(y0, y1, cols) == (y1 - y0) * cols
    decreases y1 - y0
  {
    if y1 > y0 {
      RowsAreaIsProduct(y0, y1 - 1, cols);
      MulSucc(y1 - 1 - y0, cols);
    }
  }

  /** r, g and b are the sums of channels 0..2 of s over columns [x0, x1)
      and rows [y0, y1). */
  ghost predicate Summed(s: seq<Byte>, w: nat, h: nat, x0: int, x1: int, y0: int, y1: int, r: nat, g: nat, b: nat)
    requires |s| == w * h * 4
  {
    r == RectSum(s, w, h, 0, x0, x1, y0, y1) && g == RectSum(s, w, h, 1, x0, x1, y0, y1) &&
    b == RectSum(s, w, h, 2, x0, x1, y0, y1)
  }

  /** Sums channels 0..2 of both images over the tile at (left, top), row by
      row, and counts its pixels. */
  method TileSums(img1: seq<Byte>, img2: seq<Byte>, w: nat, h: nat, bs: nat, left: nat, top: nat)
    returns (r1: nat, g1: nat, b1: nat, r2: nat, g2: nat, b2: nat, count: nat)
    requires |img1| == w * h * 4 && |img2| == w * h * 4 && bs > 0 && left < w && top < h
    ensures count == TileArea(w, h, bs, left, top)
    ensures var xe, ye := TileEnd(left, bs, w), TileEnd(top, bs, h);
      r1 == RectSum(img1, w, h, 0, left, xe, top, ye) && g1 == RectSum(img1, w, h, 1, left, xe, top, ye) &&
      b1 == RectSum(img1, w, h, 2, left, xe, top, ye) && r2 == RectSum(img2, w, h, 0, left, xe, top, ye) &&
      g2 == RectSum(img2, w, h, 1, left, xe, top, ye) && b2 == RectSum(img2, w, h, 2, left, xe, top, ye)
  {
    var xe, ye := TileEnd(left, bs, w), TileEnd(top, bs, h);
    r1, g1, b1, r2, g2, b2, count := 0, 0, 0, 0, 0, 0, 0;
    var y := top;
    while y < ye
      invariant top <= y <= ye && count == RowsArea(top, y, xe - left)
      invariant Summed(img1, w, h, left, xe, top, y, r1, g1, b1) && Summed(img2, w, h, left, xe, top, y, r2, g2, b2)
    {
      var dr1, dg1, db1, dr2, dg2, db2, n := RowSums(img1, img2, w, h, left, xe, y);
      r1, g1, b1 := r1 + dr1, g1 + dg1, b1 + db1;
      r2, g2, b2 := r2 + dr2, g2 + dg2, b2 + db2;
      count := count + n;
      RowsAreaNext(top, y, xe - left);
      y := y + 1;
    }
    RowsAreaIsProduct(top, ye, xe - left);
  }

  /** Writes `value` into columns [left, xe) of row y; returns the pixels written. */
  method MarkRow(output: array<Byte>, w: nat, h: nat, left: nat, xe: nat, y: nat, value: Byte)
    returns (ghost cells: set<int>)
    requires output.Length == w * h && left <= xe <= w && y < h
    modifies output
    ensures forall p :: 0 <= p < w * h ==>
      output[p] == if InRect(w, p, left, xe, y, y + 1) then value else old(output[p])
    ensures forall p :: p in cells <==> 0 <= p < w * h && InRect(w, p, left, xe, y, y + 1)
    ensures |cells| == xe - left
  {
    cells := {};
    var x := left;
    while x < xe
      invariant left <= x <= xe
      invariant forall p :: 0 <= p < w * h ==>
        output[p] == if InRect(w, p, left, x, y, y + 1) then value else old(output[p])
      invariant forall p :: p in cells <==> 0 <= p < w * h && InRect(w, p, left, x, y, y + 1)
      invariant |cells| == x - left
    {
      var i := Cell(w, h, x, y);
      CellCoords(w, h, x, y);
      forall p | 0 <= p < w * h && p % w == x && p / w == y
        ensures p == i
      {
        DivMod(w, p);
      }
      output[i] := value;
      cells := cells + {i};
      x := x + 1;
    }
  }

  /** Writes `value` into every pixel of the tile at (left, top); returns the
      set of pixels written. */
  method MarkTile(output: array<Byte>, w: nat, h: nat, bs: nat, left: nat, top: nat, value: Byte)
    returns (ghost cells: set<int>)
    requires output.Length == w * h && bs > 0 && left < w && top < h
    modifies output
    ensures forall p :: 0 <= p < w * h ==>
      output[p] == if InRect(w, p, left, left + bs, top, top + bs) then value else old(output[p])
    ensures forall p :: p in cells <==> 0 <= p < w * h && InRect(w, p, left, left + bs, top, top + bs)
    ensures |cells| == TileArea(w, h, bs, left, top)
  {
    var xe, ye := TileEnd(left, bs, w), TileEnd(top, bs, h);
    cells := {};
    var y := top;
    while y < ye
      invariant top <= y <= ye
      invariant forall p :: 0 <= p < w * h ==>
        output[p] == if InRect(w, p, left, xe, top, y) then value else old(output[p])
      invariant forall p :: p in cells <==> 0 <= p < w * h && InRect(w, p, left, xe, top, y)
      invariant |cells| == (y - top) * (xe - left)
    {
      var row := MarkRow(output, w, h, left, xe, y, value);
      assert cells * row == {};
      cells := cells + row;
      MulSucc(y - top, xe - left);
      y := y + 1;
    }
    forall p | 0 <= p < w * h
      ensures InRect(w, p, left, xe, top, ye) <==> InRect(w, p, left, left + bs, top, top + bs)
    {
      Coords(w, h, p);
    }
  }

  /** One tile of blockCompare, the one whose corner is (left, top): sums
      both images over it, compares the means and writes 255 or 0 over the
      tile, adding its pixels to the count when it differs. The tiles not yet
      reached are left as they were. */
  method CompareTile(img1: seq<Byte>, img2: seq<Byte>, output: array<Byte>, w: nat, h: nat, bs: nat,
                     threshold: real, top: nat, ghost kt: nat, left: nat, ghost kl: nat,
                     diffBefore: nat, ghost markedBefore: set<int>)
    returns (diff: nat, ghost marked: set<int>)
    requires |img1| == w * h * 4 && |img2| == w * h * 4 && output.Length == w * h
    requires bs > 0 && top == kt * bs && top < h && left == kl * bs && left < w
    requires forall p :: 0 <= p < w * h && Processed(w, bs, p, top, left) ==>
      output[p] == BlockValue(img1, img2, w, h, bs, threshold, p)
    requires forall p :: p in markedBefore <==>
      0 <= p < w * h && Processed(w, bs, p, top, left) && BlockValue(img1, img2, w, h, bs, threshold, p) == 255
    requires diffBefore == |markedBefore|
    modifies output
    ensures forall p :: 0 <= p < w * h && Processed(w, bs, p, top, left + bs) ==>
      output[p] == BlockValue(img1, img2, w, h, bs, threshold, p)
    ensures forall p :: p in marked <==>
      0 <= p < w * h && Processed(w, bs, p, top, left + bs) && BlockValue(img1, img2, w, h, bs, threshold, p) == 255
    ensures diff == |marked|
    ensures forall p :: 0 <= p < w * h && !Processed(w, bs, p, top, left + bs) ==> output[p] == old(output[p])
  {
    diff, marked := diffBefore, markedBefore;
    var r1, g1, b1, r2, g2, b2, count := TileSums(img1, img2, w, h, bs, left, top);
    var mean1 := Rgb(r1 as real / count as real, g1 as real / count as real, b1 as real / count as real);
    var mean2 := Rgb(r2 as real / count as real, g2 as real / count as real, b2 as real / count as real);
    var isDifferent := Exceeds(DeltaSq(mean1, mean2), threshold);
    assert isDifferent == TileDiffers(img1, img2, w, h, bs, left, top, threshold);
    ghost var cells := MarkTile(output, w, h, bs, left, top, if isDifferent then 255 else 0);
    forall p | p in cells
      ensures BlockValue(img1, img2, w, h, bs, threshold, p) == if isDifferent then 255 else 0
      ensures !Processed(w, bs, p, top, left)
    {
      TileOfPixel(bs, p % w, kl);
      TileOfPixel(bs, p / w, kt);
    }
    if isDifferent {
      assert marked * cells == {};
      diff := diff + count;
      marked := marked + cells;
    }
  }

  /** One band of tiles, those whose top row is `top`; the rows below the
      band are left as they were. */
  method CompareBand(img1: seq<Byte>, img2: seq<Byte>, output: array<Byte>, w: nat, h: nat, bs: nat,
                     threshold: real, top: nat, ghost kt: nat, diffBefore: nat, ghost markedBefore: set<int>)
    returns (diff: nat, ghost marked: set<int>)
    requires |img1| == w * h * 4 && |img2| == w * h * 4 && output.Length == w * h
    requires bs > 0 && top == kt * bs && top < h
    requires forall p :: 0 <= p < w * h && Processed(w, bs, p, top, 0) ==>
      output[p] == BlockValue(img1, img2, w, h, bs, threshold, p)
    requires forall p :: p in markedBefore <==>
      0 <= p < w * h && Processed(w, bs, p, top, 0) && BlockValue(img1, img2, w, h, bs, threshold, p) == 255
    requires diffBefore == |markedBefore|
    modifies output
    ensures forall p :: 0 <= p < w * h && Processed(w, bs, p, top + bs, 0) ==>
      output[p] == BlockValue(img1, img2, w, h, bs, threshold, p)
    ensures forall p :: p in marked <==>
      0 <= p < w * h && Processed(w, bs, p, top + bs, 0) && BlockValue(img1, img2, w, h, bs, threshold, p) == 255
    ensures diff == |marked|
    ensures forall p :: 0 <= p < w * h && !Processed(w, bs, p, top + bs, 0) ==> output[p] == old(output[p])
  {
    diff, marked := diffBefore, markedBefore;
    var left := 0;
    ghost var kl := 0;
    while left < w
      invariant left == kl * bs
      invariant forall p :: 0 <= p < w * h && Processed(w, bs, p, top, left) ==>
        output[p] == BlockValue(img1, img2, w, h, bs, threshold, p)
      invariant forall p :: p in marked <==>
        0 <= p < w * h && Processed(w, bs, p, top, left) && BlockValue(img1, img2, w, h, bs, threshold, p) == 255
      invariant diff == |marked|
      invariant forall p :: 0 <= p < w * h && !Processed(w, bs, p, top, left) ==> output[p] == old(output[p])
      decreases w - left
    {
      diff, marked := CompareTile(img1, img2, output, w, h, bs, threshold, top, kt, left, kl, diff, marked);
      MulSucc(kl, bs);
      left := left + bs;
      kl := kl + 1;
    }
  }

  /** blockCompare: fills the mask tile by tile and returns the number of
      pixels in differing tiles, which is the number of 255s in the mask. */
  method Compare(img1: seq<Byte>, img2: seq<Byte>, output: array<Byte>, w: nat, h: nat, bs: nat, threshold: real)
    returns (diffBlocks: nat)
    requires |img1| == w * h * 4 && |img2| == w * h * 4 && output.Length == w * h && bs > 0
    modifies output
    ensures output[..] == BlockMask(img1, img2, w, h, bs, threshold)
    ensures diffBlocks == multiset(output[..])[255]
  {
    diffBlocks := 0;
    ghost var marked: set<int> := {};
    var top := 0;
    ghost var kt := 0;
    while top < h
      invariant top == kt * bs
      invariant forall p :: 0 <= p < w * h && Processed(w, bs, p, top, 0) ==>
        output[p] == BlockValue(img1, img2, w, h, bs, threshold, p)
      invariant forall p :: p in marked <==>
        0 <= p < w * h && Processed(w, bs, p, top, 0) && BlockValue(img1, img2, w, h, bs, threshold, p) == 255
      invariant diffBlocks == |marked|
      decreases h - top
    {
      diffBlocks, marked := CompareBand(img1, img2, output, w, h, bs, threshold, top, kt, diffBlocks, marked);
      MulSucc(kt, bs);
      top := top + bs;
      kt := kt + 1;
    }
    forall p | 0 <= p < w * h
      ensures Processed(w, bs, p, top, 0)
    {
      Coords(w, h, p);
    }
    assert output[..] == BlockMask(img1, img2, w, h, bs, threshold);
    OccurrencesAreIndices(output[..], 255, marked);
  }

  /** Every pixel of the tile whose corner is (kl * bs, kt * bs) carries that
      tile's mark: the marks are uniform within a tile. */
  lemma TileIsUniform(a: seq<Byte>, b: seq<Byte>, w: nat, h: nat, bs: nat, threshold: real,
                      kl: nat, kt: nat, p: int)
    requires |a| == w * h * 4 && |b| == w * h * 4 && bs > 0 && w > 0 && 0 <= p < w * h
    requires kl * bs < w && kt * bs < h && InRect(w, p, kl * bs, kl * bs + bs, kt * bs, kt * bs + bs)
    ensures BlockValue(a, b, w, h, bs, threshold, p) ==
      if TileDiffers(a, b, w, h, bs, kl * bs, kt * bs, threshold) then 255 else 0
  {
    Coords(w, h, p);
    TileOfPixel(bs, p % w, kl);
    TileOfPixel(bs, p / w, kt);
  }

  /** Comparing an image with itself (threshold 0 or more) marks no tile. */
  lemma IdenticalImagesNoBlocks(a: seq<Byte>, w: nat, h: nat, bs: nat, threshold: real)
    requires |a| == w * h * 4 && bs > 0 && threshold >= 0.0
    ensures forall p :: 0 <= p < w * h ==> BlockMask(a, a, w, h, bs, threshold)[p] == 0
  {
    forall p | 0 <= p < w * h
      ensures BlockValue(a, a, w, h, bs, threshold, p) == 0
    {
      Coords(w, h, p);
      SameColourNeverExceeds(TileMean(a, w, h, bs, TileStart(p % w, bs), TileStart(p / w, bs)), threshold);
    }
  }

  /** A tile of one pixel has that pixel's colour as its mean. */
  lemma OnePixelTile(s: seq<Byte>, w: nat, h: nat, p: int)
    requires |s| == w * h * 4 && 0 <= p < w * h
    ensures w > 0 && TileMean(s, w, h, 1, TileStart(p % w, 1), TileStart(p / w, 1)) == PixelRgb(s, p)
  {
    Coords(w, h, p);
    var x, y := p % w, p / w;
    DivUnique(x, 1, x);
    DivUnique(y, 1, y);
    assert InImage(w, h, x, y);
    assert TileStart(x, 1) == x && TileStart(y, 1) == y;
    assert TileArea(w, h, 1, x, y) == 1;
    assert Cell(w, h, x, y) == p;
    OneCellSum(s, w, h, 0, x, y);
    OneCellSum(s, w, h, 1, x, y);
    OneCellSum(s, w, h, 2, x, y);
  }

  lemma OneCellSum(s: seq<Byte>, w: nat, h: nat, c: nat, x: int, y: int)
    requires |s| == w * h * 4 && c < 4 && InImage(w, h, x, y)
    ensures RectSum(s, w, h, c, x, x + 1, y, y + 1) == s[4 * Cell(w, h, x, y) + c]
  {
    assert RectSum(s, w, h, c, x, x + 1, y, y) == 0;
    assert RectSum(s, w, h, c, x, x + 1, y, y + 1) == SpanSum(s, w, h, c, y, x, x + 1);
    assert SpanSum(s, w, h, c, y, x, x) == 0;
    assert SpanSum(s, w, h, c, y, x, x + 1) == s[Sample(w, h, x, y, c)];
    assert Sample(w, h, x, y, c) == 4 * Cell(w, h, x, y) + c;
  }

  /** With blocks of one pixel, the block comparator marks exactly the
      pixels whose colours (alpha ignored) are further apart than the
      threshold: the colour test of the per-pixel comparator. */
  lemma BlockSizeOneIsColourTest(a: seq<Byte>, b: seq<Byte>, w: nat, h: nat, threshold: real, p: int)
    requires |a| == w * h * 4 && |b| == w * h * 4 && 0 <= p < w * h
    ensures BlockValue(a, b, w, h, 1, threshold, p) == 255 <==> Exceeds(PixelDeltaSq(a, b, p), threshold)
  {
    OnePixelTile(a, w, h, p);
    OnePixelTile(b, w, h, p);
  }

  /** A block size covering the whole image makes one tile: every pixel
      gets the same value, decided by the means of the whole images. */
  lemma SingleTile(a: seq<Byte>, b: seq<Byte>, w: nat, h: nat, bs: nat, threshold: real, p: int)
    requires |a| == w * h * 4 && |b| == w * h * 4 && bs >= w && bs >= h && bs > 0 && 0 <= p < w * h
    ensures BlockValue(a, b, w, h, bs, threshold, p) == if TileDiffers(a, b, w, h, bs, 0, 0, threshold) then 255 else 0
  {
    Coords(w, h, p);
    DivUnique(p % w, bs, 0);
    DivUnique(p / w, bs, 0);
  }
}
