/** Morphological clean-up of a difference mask (applyMorphology): a 3x3
    dilation of the interior, labelling of the dilated regions, counting of
    each region's pixels, and replacement of every labelled pixel by 255 if
    its region has at least minSize pixels and by 0 otherwise. Pixels the
    dilation leaves at 0 keep their raw difference value. */
module Morphology {
  import opened Grid
  import opened Regions

  /** Cell t (0..8, row by row) of the 3x3 window centred on interior pixel i. */
  function WindowCell(w: nat, h: nat, i: int, t: nat): (c: nat)
    requires Interior(w, h, i) && t < 9
    ensures c < w * h
  {
    Coords(w, h, i);
    Cell(w, h, i % w + t % 3 - 1, i / w + t / 3 - 1)
  }

  /** Largest of 0 and the first t window samples around interior pixel i. */
  function WindowMaxUpTo(s: seq<Byte>, w: nat, h: nat, i: int, t: nat): Byte
    requires |s| == w * h && Interior(w, h, i) && t <= 9
  {
    if t == 0 then 0 else Max(WindowMaxUpTo(s, w, h, i, t - 1), s[WindowCell(w, h, i, t - 1)])
  }

  /** The dilated mask: the window maximum at interior pixels, 0 on the border. */
  function Dilate(s: seq<Byte>, w: nat, h: nat): (d: seq<Byte>)
    requires |s| == w * h
    ensures |d| == |s|
  {
    seq(|s|, i requires 0 <= i < |s| => if Interior(w, h, i) then WindowMaxUpTo(s, w, h, i, 9) else 0)
  }

  /** The window maximum is at least every sample of the first t and is one
      of them (or 0 when t is 0). */
  lemma {:induction false} WindowMaxBounds(s: seq<Byte>, w: nat, h: nat, i: int, t: nat)
    requires |s| == w * h && Interior(w, h, i) && t <= 9
    ensures forall u :: 0 <= u < t ==> s[WindowCell(w, h, i, u)] <= WindowMaxUpTo(s, w, h, i, t)
    ensures t == 0 || exists u :: 0 <= u < t && s[WindowCell(w, h, i, u)] == WindowMaxUpTo(s, w, h, i, t)
  {
    if t > 0 {
      WindowMaxBounds(s, w, h, i, t - 1);
      if t > 1 && WindowMaxUpTo(s, w, h, i, t - 1) >= s[WindowCell(w, h, i, t - 1)] {
        var u :| 0 <= u < t - 1 && s[WindowCell(w, h, i, u)] == WindowMaxUpTo(s, w, h, i, t - 1);
        assert s[WindowCell(w, h, i, u)] == WindowMaxUpTo(s, w, h, i, t);
      }
    }
  }

  /** The dilated value of an interior pixel is the largest value of its
      3x3 window; a border pixel's is 0. */
  lemma DilateIsWindowMax(s: seq<Byte>, w: nat, h: nat, i: int)
    requires |s| == w * h && 0 <= i < |s|
    ensures !Interior(w, h, i) ==> Dilate(s, w, h)[i] == 0
    ensures Interior(w, h, i) ==>
      (forall u :: 0 <= u < 9 ==> s[WindowCell(w, h, i, u)] <= Dilate(s, w, h)[i]) &&
      (exists u :: 0 <= u < 9 && s[WindowCell(w, h, i, u)] == Dilate(s, w, h)[i])
  {
    if Interior(w, h, i) {
      WindowMaxBounds(s, w, h, i, 9);
    }
  }

  /** An interior pixel takes at least the value of every pixel one step
      away from it, diagonals included. */
  lemma DilationCovers(s: seq<Byte>, w: nat, h: nat, i: int, dx: int, dy: int)
    requires |s| == w * h && Interior(w, h, i) && -1 <= dx <= 1 && -1 <= dy <= 1
    ensures w > 0 && s[Cell(w, h, i % w + dx, i / w + dy)] <= Dilate(s, w, h)[i]
  {
    WindowMaxBounds(s, w, h, i, 9);
    var u := (dy + 1) * 3 + (dx + 1);
    assert WindowCell(w, h, i, u) == Cell(w, h, i % w + dx, i / w + dy);
  }

  /** Window cell (ky + 1) * 3 + (kx + 1) is the pixel at offset (kx, ky). */
  lemma WindowCellAt(w: nat, h: nat, x: nat, y: nat, kx: int, ky: int)
    requires 0 < x < w - 1 && 0 < y < h - 1 && -1 <= kx <= 1 && -1 <= ky <= 1
    ensures Interior(w, h, Cell(w, h, x, y))
    ensures WindowCell(w, h, Cell(w, h, x, y), (ky + 1) * 3 + (kx + 1)) == (y + ky) * w + (x + kx)
  {
    CellCoords(w, h, x, y);
    var t := (ky + 1) * 3 + (kx + 1);
    assert t % 3 == kx + 1 && t / 3 == ky + 1;
  }

  /** Maximum of the 3x3 window around interior pixel (x, y), in the
      order applyMorphology visits it (rows, then columns). */
  method WindowMax(diff: array<Byte>, w: nat, h: nat, x: nat, y: nat) returns (maxVal: Byte)
    requires diff.Length == w * h && 0 < x < w - 1 && 0 < y < h - 1
    ensures Interior(w, h, Cell(w, h, x, y))
    ensures maxVal == WindowMaxUpTo(diff[..], w, h, Cell(w, h, x, y), 9)
  {
    ghost var i := Cell(w, h, x, y);
    CellCoords(w, h, x, y);
    maxVal := 0;
    var ky := -1;
    while ky <= 1
      invariant -1 <= ky <= 2
      invariant maxVal == WindowMaxUpTo(diff[..], w, h, i, (ky + 1) * 3)
    {
      var kx := -1;
      while kx <= 1
        invariant -1 <= kx <= 2
        invariant maxVal == WindowMaxUpTo(diff[..], w, h, i, (ky + 1) * 3 + (kx + 1))
      {
        var idx := (y + ky) * w + (x + kx);
        WindowCellAt(w, h, x, y, kx, ky);
        maxVal := Max(maxVal, diff[idx]);
        kx := kx + 1;
      }
      ky := ky + 1;
    }
  }

  /** The dilation loop: visits the interior pixels row by row. */
  method Dilation(diff: array<Byte>, w: nat, h: nat) returns (dilated: array<Byte>)
    requires diff.Length == w * h
    ensures fresh(dilated) && dilated[..] == Dilate(diff[..], w, h)
  {
    ghost var d := Dilate(diff[..], w, h);
    dilated := new Byte[diff.Length](_ => 0);
    var y := 1;
    while y < h - 1
      invariant 1 <= y && dilated.Length == diff.Length
      invariant forall i :: 0 <= i < diff.Length ==> dilated[i] == if Interior(w, h, i) && i / w < y then d[i] else 0
    {
      var x := 1;
      while x < w - 1
        invariant 1 <= x
        invariant forall i :: 0 <= i < diff.Length ==>
          dilated[i] == if Interior(w, h, i) && (i / w < y || (i / w == y && i % w < x)) then d[i] else 0
      {
        var maxVal := WindowMax(diff, w, h, x, y);
        var i := y * w + x;
        assert i == Cell(w, h, x, y);
        CellCoords(w, h, x, y);
        forall j | 0 <= j < diff.Length && j % w == x && j / w == y
          ensures j == i
        {
          DivMod(w, j);
        }
        dilated[i] := maxVal;
        x := x + 1;
      }
      y := y + 1;
    }
    forall i | 0 <= i < diff.Length && Interior(w, h, i)
      ensures i / w < y
    {
    }
  }

  /** Counts the pixels of every label above 0 (the region size map). */
  method RegionSizes(labels: array<nat>) returns (sizes: map<nat, nat>)
    ensures forall l :: l in sizes <==> l > 0 && l in labels[..]
    ensures forall l :: l in sizes ==> sizes[l] == multiset(labels[..])[l]
  {
    sizes := map[];
    var i := 0;
    while i < labels.Length
      invariant 0 <= i <= labels.Length
      invariant forall l :: l in sizes <==> l > 0 && l in labels[..i]
      invariant forall l :: l in sizes ==> sizes[l] == multiset(labels[..i])[l]
    {
      var l := labels[i];
      assert labels[..i + 1] == labels[..i] + [l];
      if l > 0 {
        var previous := if l in sizes then sizes[l] else 0;
        sizes := sizes[l := previous + 1];
      }
      i := i + 1;
    }
    assert labels[..i] == labels[..];
  }

  /** Number of pixels in the 4-connected region of non-zero pixels of d
      that holds pixel i. */
  ghost function RegionSize(d: seq<Byte>, w: nat, h: nat, i: int): nat
  {
    |set j | 0 <= j < |d| && Connected(w, h, Foreground(d), i, j)|
  }

  /** The cleaned mask: a pixel non-zero after dilation becomes 255 when its
      dilated region has at least minSize pixels and 0 otherwise; any other
      pixel keeps its raw difference value. */
  ghost function Cleaned(diff: seq<Byte>, w: nat, h: nat, minSize: int): (c: seq<Byte>)
    requires |diff| == w * h
    ensures |c| == |diff|
  {
    var d := Dilate(diff, w, h);
    seq(|diff|, i requires 0 <= i < |diff| =>
      if d[i] > 0 then (if RegionSize(d, w, h, i) < minSize then 0 else 255) else diff[i])
  }

  /** The number of pixels carrying a region's label is the size of that region. */
  lemma LabelCountIsRegionSize(d: seq<Byte>, w: nat, h: nat, labels: seq<nat>, i: int)
    requires |labels| == |d| && 0 <= i < |d| && d[i] > 0
    requires forall j :: 0 <= j < |d| ==> (labels[j] > 0 <==> d[j] > 0)
    requires forall j, k :: 0 <= j < |d| && 0 <= k < |d| && d[j] > 0 && d[k] > 0 ==>
      (labels[j] == labels[k] <==> Connected(w, h, Foreground(d), j, k))
    ensures multiset(labels)[labels[i]] == RegionSize(d, w, h, i)
  {
    var region := set j | 0 <= j < |d| && Connected(w, h, Foreground(d), i, j);
    forall j
      ensures j in region <==> 0 <= j < |labels| && labels[j] == labels[i]
    {
      if j in region {
        ConnectedEnds(w, h, Foreground(d), i, j);
      }
    }
    OccurrencesAreIndices(labels, labels[i], region);
  }

  /** The removal loop of applyMorphology: every labelled pixel becomes 0
      when its region has fewer than minSize pixels and 255 otherwise; an
      unlabelled pixel keeps its value. */
  method RemoveSmallRegions(result: array<Byte>, labels: array<nat>, sizes: map<nat, nat>, minSize: int)
    requires labels.Length == result.Length
    requires forall l :: l > 0 && l in labels[..] ==> l in sizes
    modifies result
    ensures forall j :: 0 <= j < result.Length ==>
      result[j] == if labels[j] > 0 then (if sizes[labels[j]] < minSize then 0 else 255) else old(result[j])
  {
    var i := 0;
    while i < labels.Length
      invariant 0 <= i <= labels.Length
      invariant forall j :: i <= j < result.Length ==> result[j] == old(result[j])
      invariant forall j :: 0 <= j < i ==>
        result[j] == if labels[j] > 0 then (if sizes[labels[j]] < minSize then 0 else 255) else old(result[j])
    {
      var region := labels[i];
      assert labels[..][i] == region;
      if region > 0 && sizes[region] < minSize {
        result[i] := 0;
      } else if region > 0 {
        result[i] := 255;
      }
      i := i + 1;
    }
  }

  /** applyMorphology: dilates, labels the dilated regions, counts them and
      rewrites the labelled pixels of a copy of the mask; the input mask is
      not changed. */
  method ApplyMorphology(diff: array<Byte>, w: nat, h: nat, minSize: int) returns (result: array<Byte>)
    requires diff.Length == w * h
    ensures fresh(result) && result[..] == Cleaned(diff[..], w, h, minSize)
  {
    result := new Byte[diff.Length](i requires 0 <= i < diff.Length reads diff => diff[i]);
    var dilated := Dilation(diff, w, h);
    ghost var d := dilated[..];
    var labels, regions := LabelRegions(dilated[..], w, h);
    ghost var numbered := labels[..];
    var regionSizes := RegionSizes(labels);
    RemoveSmallRegions(result, labels, regionSizes, minSize);
    RemovalIsCleaned(diff[..], w, h, minSize, d, numbered, regionSizes, result[..]);
  }

  /** Rewriting the labelled pixels by the size map, as the removal loop
      does, gives the cleaned mask when the labels are the regions of the
      dilated mask and the map holds their pixel counts. */
  lemma RemovalIsCleaned(diff: seq<Byte>, w: nat, h: nat, minSize: int, d: seq<Byte>, labels: seq<nat>,
                         sizes: map<nat, nat>, result: seq<Byte>)
    requires |diff| == w * h && d == Dilate(diff, w, h) && |labels| == |diff| && |result| == |diff|
    requires forall j :: 0 <= j < |d| ==> (labels[j] > 0 <==> d[j] > 0)
    requires forall j, k :: 0 <= j < |d| && 0 <= k < |d| && d[j] > 0 && d[k] > 0 ==>
      (labels[j] == labels[k] <==> Connected(w, h, Foreground(d), j, k))
    requires forall l :: l in sizes <==> l > 0 && l in labels
    requires forall l :: l in sizes ==> sizes[l] == multiset(labels)[l]
    requires forall j :: 0 <= j < |result| ==>
      result[j] == if labels[j] > 0 then (if sizes[labels[j]] < minSize then 0 else 255) else diff[j]
    ensures result == Cleaned(diff, w, h, minSize)
  {
    forall j | 0 <= j < |result|
      ensures result[j] == Cleaned(diff, w, h, minSize)[j]
    {
      if labels[j] > 0 {
        LabelCountIsRegionSize(d, w, h, labels, j);
      }
    }
  }

  /** A pixel on the image border is never dilated, so the clean-up leaves
      its raw difference value in place. */
  lemma BorderKeepsRawValue(diff: seq<Byte>, w: nat, h: nat, minSize: int, i: int)
    requires |diff| == w * h && 0 <= i < |diff| && !Interior(w, h, i)
    ensures Cleaned(diff, w, h, minSize)[i] == diff[i]
  {
    DilateIsWindowMax(diff, w, h, i);
  }

  /** An interior pixel with a non-zero difference is dilated to a non-zero
      value, so the clean-up writes 0 or 255 there. */
  lemma InteriorDifferenceIsDecided(diff: seq<Byte>, w: nat, h: nat, minSize: int, i: int)
    requires |diff| == w * h && Interior(w, h, i) && diff[i] > 0
    ensures Dilate(diff, w, h)[i] > 0
    ensures Cleaned(diff, w, h, minSize)[i] == 0 || Cleaned(diff, w, h, minSize)[i] == 255
  {
    DilationCovers(diff, w, h, i, 0, 0);
    Coords(w, h, i);
  }

  /** The interior pixels with a non-zero raw difference: the pixels the
      dilation is sure to keep non-zero. */
  function InteriorDifferences(diff: seq<Byte>, w: nat, h: nat): (m: seq<bool>)
    requires |diff| == w * h
    ensures |m| == |diff|
  {
    seq(|diff|, j requires 0 <= j < |diff| => Interior(w, h, j) && diff[j] > 0)
  }

  /** An interior difference connected, through interior differences, to at
      least minSize pixels survives the clean-up as 255: dilation only grows
      its region, so the region counted is at least as large. */
  lemma LargeRawRegionSurvives(diff: seq<Byte>, w: nat, h: nat, minSize: int, i: int, s: set<int>)
    requires |diff| == w * h && Interior(w, h, i) && diff[i] > 0
    requires forall j :: j in s ==> Connected(w, h, InteriorDifferences(diff, w, h), i, j)
    requires |s| >= minSize
    ensures Cleaned(diff, w, h, minSize)[i] == 255
  {
    var d := Dilate(diff, w, h);
    var m := InteriorDifferences(diff, w, h);
    InteriorDifferenceIsDecided(diff, w, h, minSize, i);
    forall j | 0 <= j < |m| && m[j]
      ensures Foreground(d)[j]
    {
      DilationCovers(diff, w, h, j, 0, 0);
      Coords(w, h, j);
    }
    var region := set j | 0 <= j < |d| && Connected(w, h, Foreground(d), i, j);
    forall j | j in s
      ensures j in region
    {
      ConnectedEnds(w, h, m, i, j);
      ConnectedMono(w, h, m, Foreground(d), i, j);
    }
    SubsetSize(s, region);
  }

  lemma SubsetSize(a: set<int>, b: set<int>)
    requires a <= b
    ensures |a| <= |b|
  {
    assert b == a + (b - a);
    assert a * (b - a) == {};
  }

  /** Pixels of the same dilated region share one region and one size. */
  lemma SameRegionSameSize(d: seq<Byte>, w: nat, h: nat, i: int, k: int)
    requires Connected(w, h, Foreground(d), i, k)
    ensures RegionSize(d, w, h, i) == RegionSize(d, w, h, k)
  {
    var fg := Foreground(d);
    var ri := set j | 0 <= j < |d| && Connected(w, h, fg, i, j);
    var rk := set j | 0 <= j < |d| && Connected(w, h, fg, k, j);
    ConnectedSym(w, h, fg, i, k);
    forall j | 0 <= j < |d|
      ensures Connected(w, h, fg, i, j) <==> Connected(w, h, fg, k, j)
    {
      if Connected(w, h, fg, i, j) {
        ConnectedTrans(w, h, fg, k, i, j);
      }
      if Connected(w, h, fg, k, j) {
        ConnectedTrans(w, h, fg, i, k, j);
      }
    }
    assert ri == rk;
  }

  /** The clean-up writes one value over a whole dilated region. */
  lemma RegionIsUniform(diff: seq<Byte>, w: nat, h: nat, minSize: int, i: int, k: int)
    requires |diff| == w * h && 0 <= i < |diff| && 0 <= k < |diff|
    requires Connected(w, h, Foreground(Dilate(diff, w, h)), i, k)
    ensures Cleaned(diff, w, h, minSize)[i] == Cleaned(diff, w, h, minSize)[k]
  {
    var d := Dilate(diff, w, h);
    ConnectedEnds(w, h, Foreground(d), i, k);
    SameRegionSameSize(d, w, h, i, k);
  }

  /** With a minimum region size of 1 or less no region is removed: every
      dilated pixel becomes 255. */
  lemma NoMinimumKeepsEveryRegion(diff: seq<Byte>, w: nat, h: nat, minSize: int, i: int)
    requires |diff| == w * h && 0 <= i < |diff| && minSize <= 1 && Dilate(diff, w, h)[i] > 0
    ensures Cleaned(diff, w, h, minSize)[i] == 255
  {
    var d := Dilate(diff, w, h);
    ConnectedRefl(w, h, Foreground(d), i);
    var region := set j | 0 <= j < |d| && Connected(w, h, Foreground(d), i, j);
    assert i in region;
  }

  /** An all-zero mask is cleaned to an all-zero mask. */
  lemma ZeroMaskStaysZero(diff: seq<Byte>, w: nat, h: nat, minSize: int)
    requires |diff| == w * h && forall j :: 0 <= j < |diff| ==> diff[j] == 0
    ensures forall j :: 0 <= j < |diff| ==> Cleaned(diff, w, h, minSize)[j] == 0
  {
    forall j | 0 <= j < |diff|
      ensures Dilate(diff, w, h)[j] == 0
    {
      DilateIsWindowMax(diff, w, h, j);
      if Interior(w, h, j) {
        var u :| 0 <= u < 9 && diff[WindowCell(w, h, j, u)] == Dilate(diff, w, h)[j];
      }
    }
  }
}
