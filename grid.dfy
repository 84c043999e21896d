/** Row-major pixel grids: index arithmetic, 4-adjacency, paths through a
    mask of pixels, and counting occurrences in a sequence. */
module Grid {

  /** One unsigned 8-bit sample, as held by a Uint8Array or Uint8ClampedArray. */
  type Byte = x: int | 0 <= x < 256

  function Min(a: int, b: int): (m: int)
    ensures m <= a && m <= b && (m == a || m == b)
  {
    if a <= b then a else b
  }

  function Max(a: int, b: int): (m: int)
    ensures m >= a && m >= b && (m == a || m == b)
  {
    if a >= b then a else b
  }

  lemma MulMonotone(a: int, b: int, c: nat)
    requires a <= b
    ensures a * c <= b * c
  {
    assert b * c - a * c == (b - a) * c;
  }

  lemma MulSucc(a: int, b: int)
    ensures (a + 1) * b == a * b + b
  {
  }

  lemma MulComm(a: int, b: int)
    ensures a * b == b * a
  {
  }

  /** Row y of a w by h image ends within the image. */
  lemma RowFits(w: nat, h: nat, y: nat)
    requires y < h
    ensures y * w + w <= w * h
  {
    MulMonotone(y + 1, h, w);
    MulSucc(y, w);
  }

  /** An index is recovered from its column and row. */
  lemma DivMod(w: nat, p: int)
    requires w > 0
    ensures p == (p / w) * w + p % w
  {
  }

  /** Index of pixel (x, y) in a grid `w` pixels wide and `h` pixels high. */
  function Cell(w: nat, h: nat, x: int, y: int): (i: nat)
    requires 0 <= x < w && 0 <= y < h
    ensures i < w * h
  {
    MulMonotone(y + 1, h, w);
    y * w + x
  }

  /** The column and row of a cell are recovered by `%` and `/`. */
  lemma {:induction false} CellCoords(w: nat, h: nat, x: int, y: int)
    requires 0 <= x < w && 0 <= y < h
    ensures Cell(w, h, x, y) % w == x && Cell(w, h, x, y) / w == y
  {
    var i := Cell(w, h, x, y);
    var q, r := i / w, i % w;
    assert q * w + r == y * w + x;
    if q > y {
      MulMonotone(1, q - y, w);
    } else if q < y {
      MulMonotone(1, y - q, w);
    }
  }

  /** Every index of a `w` by `h` grid is the cell of its column and row. */
  lemma {:induction false} Coords(w: nat, h: nat, i: int)
    requires 0 <= i < w * h
    ensures w > 0 && 0 <= i % w < w && 0 <= i / w < h
    ensures Cell(w, h, i % w, i / w) == i
  {
    if i / w >= h {
      MulMonotone(h, i / w, w);
      assert false;
    }
  }

  /** Pixels (x, y) with 0 < x < w - 1 and 0 < y < h - 1: at least one pixel away from every edge. */
  predicate Interior(w: nat, h: nat, i: int)
  {
    w > 0 && 0 <= i < w * h && 0 < i % w < w - 1 && 0 < i / w < h - 1
  }

  /** Cells a and b of the grid are horizontal or vertical neighbours. */
  predicate Adjacent(w: nat, h: nat, a: int, b: int)
  {
    w > 0 && 0 <= a < w * h && 0 <= b < w * h &&
    var xa, ya, xb, yb := a % w, a / w, b % w, b / w;
    (ya == yb && (xa + 1 == xb || xb + 1 == xa)) ||
    (xa == xb && (ya + 1 == yb || yb + 1 == ya))
  }

  /** The neighbours of cell i, in the order the flood fill pushes them:
      left, right, up, down, each only when it lies inside the grid. */
  function Neighbours(w: nat, h: nat, i: nat): seq<int>
    requires w > 0
  {
    var x, y := i % w, i / w;
    (if x > 0 then [i - 1] else []) + (if x < w - 1 then [i + 1] else []) +
    (if y > 0 then [i - w] else []) + (if y < h - 1 then [i + w] else [])
  }

  /** Two pixels one step apart horizontally or vertically have adjacent cells. */
  lemma StepAdjacent(w: nat, h: nat, x: int, y: int, x2: int, y2: int)
    requires 0 <= x < w && 0 <= y < h && 0 <= x2 < w && 0 <= y2 < h
    requires (y == y2 && (x + 1 == x2 || x2 + 1 == x)) || (x == x2 && (y + 1 == y2 || y2 + 1 == y))
    ensures Adjacent(w, h, Cell(w, h, x, y), Cell(w, h, x2, y2))
  {
    CellCoords(w, h, x, y);
    CellCoords(w, h, x2, y2);
  }

  /** The cell one row down is `w` further on. */
  lemma CellBelow(w: nat, h: nat, x: int, y: int)
    requires 0 <= x < w && 0 <= y && y + 1 < h
    ensures Cell(w, h, x, y + 1) == Cell(w, h, x, y) + w
  {
    assert (y + 1) * w == y * w + w;
  }

  /** Every pushed neighbour is 4-adjacent. */
  lemma {:induction false} NeighboursAdjacent(w: nat, h: nat, i: nat)
    requires w > 0 && i < w * h
    ensures forall j :: j in Neighbours(w, h, i) ==> Adjacent(w, h, i, j)
  {
    Coords(w, h, i);
    var x, y := i % w, i / w;
    var left, right, up, down := i - 1, i + 1, i - w, i + w;
    if x > 0 {
      StepAdjacent(w, h, x, y, x - 1, y);
    }
    if x < w - 1 {
      StepAdjacent(w, h, x, y, x + 1, y);
    }
    if y > 0 {
      StepAdjacent(w, h, x, y, x, y - 1);
      CellBelow(w, h, x, y - 1);
    }
    if y < h - 1 {
      StepAdjacent(w, h, x, y, x, y + 1);
      CellBelow(w, h, x, y);
    }
    assert x > 0 ==> Adjacent(w, h, i, left);
    assert x < w - 1 ==> Adjacent(w, h, i, right);
    assert y > 0 ==> Adjacent(w, h, i, up);
    assert y < h - 1 ==> Adjacent(w, h, i, down);
  }

  /** Every 4-adjacent cell is pushed. */
  lemma {:induction false} AdjacentIsNeighbour(w: nat, h: nat, i: nat, j: int)
    requires w > 0 && i < w * h && Adjacent(w, h, i, j)
    ensures j in Neighbours(w, h, i)
  {
    Coords(w, h, i);
    Coords(w, h, j);
    var x, y, xb, yb := i % w, i / w, j % w, j / w;
    assert i == y * w + x && j == yb * w + xb;
    if yb == y + 1 {
      assert j == i + w;
    } else if y == yb + 1 {
      assert j == i - w;
    } else if xb == x + 1 {
      assert j == i + 1;
    } else {
      assert j == i - 1;
    }
  }

  /** The pushed neighbours are exactly the 4-adjacent cells. */
  lemma NeighboursAreAdjacent(w: nat, h: nat, i: nat)
    requires w > 0 && i < w * h
    ensures forall j :: j in Neighbours(w, h, i) <==> Adjacent(w, h, i, j)
  {
    NeighboursAdjacent(w, h, i);
    forall j | Adjacent(w, h, i, j)
      ensures j in Neighbours(w, h, i)
    {
      AdjacentIsNeighbour(w, h, i, j);
    }
  }

  /** A path through the cells that mask `m` admits, each step to an adjacent cell. */
  ghost predicate IsPath(w: nat, h: nat, m: seq<bool>, p: seq<int>)
  {
    |p| > 0 &&
    (forall k :: 0 <= k < |p| ==> 0 <= p[k] < |m| && m[p[k]]) &&
    (forall k :: 0 <= k < |p| - 1 ==> Adjacent(w, h, p[k], p[k + 1]))
  }

  /** Cell b is reachable from cell a through 4-adjacent cells of the mask. */
  ghost predicate Connected(w: nat, h: nat, m: seq<bool>, a: int, b: int)
  {
    exists p :: IsPath(w, h, m, p) && p[0] == a && p[|p| - 1] == b
  }

  lemma ConnectedEnds(w: nat, h: nat, m: seq<bool>, a: int, b: int)
    requires Connected(w, h, m, a, b)
    ensures 0 <= a < |m| && 0 <= b < |m| && m[a] && m[b]
  {
    var p :| IsPath(w, h, m, p) && p[0] == a && p[|p| - 1] == b;
    assert m[p[0]] && m[p[|p| - 1]];
  }

  lemma ConnectedRefl(w: nat, h: nat, m: seq<bool>, a: int)
    requires 0 <= a < |m| && m[a]
    ensures Connected(w, h, m, a, a)
  {
    assert IsPath(w, h, m, [a]);
  }

  /** A connection extends by one step to an adjacent admitted cell. */
  lemma ConnectedStep(w: nat, h: nat, m: seq<bool>, a: int, b: int, c: int)
    requires Connected(w, h, m, a, b) && Adjacent(w, h, b, c)
    requires 0 <= c < |m| && m[c]
    ensures Connected(w, h, m, a, c)
  {
    var p :| IsPath(w, h, m, p) && p[0] == a && p[|p| - 1] == b;
    var q := p + [c];
    assert forall k :: 0 <= k < |q| - 1 ==> q[k] == p[k];
    assert IsPath(w, h, m, q);
  }

  lemma ConnectedSym(w: nat, h: nat, m: seq<bool>, a: int, b: int)
    requires Connected(w, h, m, a, b)
    ensures Connected(w, h, m, b, a)
  {
    var p :| IsPath(w, h, m, p) && p[0] == a && p[|p| - 1] == b;
    var q := seq(|p|, k requires 0 <= k < |p| => p[|p| - 1 - k]);
    forall k | 0 <= k < |q| - 1
      ensures Adjacent(w, h, q[k], q[k + 1])
    {
      assert Adjacent(w, h, p[|p| - 2 - k], p[|p| - 1 - k]);
    }
    assert IsPath(w, h, m, q);
  }

  lemma ConnectedTrans(w: nat, h: nat, m: seq<bool>, a: int, b: int, c: int)
    requires Connected(w, h, m, a, b) && Connected(w, h, m, b, c)
    ensures Connected(w, h, m, a, c)
  {
    var p :| IsPath(w, h, m, p) && p[0] == a && p[|p| - 1] == b;
    var q :| IsPath(w, h, m, q) && q[0] == b && q[|q| - 1] == c;
    var r := p + q[1..];
    assert forall k :: 0 <= k < |p| ==> r[k] == p[k];
    assert forall k :: |p| <= k < |r| ==> r[k] == q[k - |p| + 1];
    forall k | 0 <= k < |r| - 1
      ensures Adjacent(w, h, r[k], r[k + 1])
    {
      if k < |p| - 1 {
        assert Adjacent(w, h, p[k], p[k + 1]);
      } else {
        assert Adjacent(w, h, q[k - |p| + 1], q[k - |p| + 2]);
      }
    }
    assert IsPath(w, h, m, r);
  }

  /** Widening the mask keeps every connection. */
  lemma ConnectedMono(w: nat, h: nat, m1: seq<bool>, m2: seq<bool>, a: int, b: int)
    requires |m1| == |m2| && forall j :: 0 <= j < |m1| && m1[j] ==> m2[j]
    requires Connected(w, h, m1, a, b)
    ensures Connected(w, h, m2, a, b)
  {
    var p :| IsPath(w, h, m1, p) && p[0] == a && p[|p| - 1] == b;
    assert IsPath(w, h, m2, p);
  }

  /** A set that holds `a` and is closed under steps to adjacent admitted
      cells holds every cell connected to `a`. */
  lemma {:induction false} ClosedHoldsComponent(w: nat, h: nat, m: seq<bool>, s: set<int>, a: int, b: int)
    requires a in s
    requires forall c, d :: c in s && Adjacent(w, h, c, d) && 0 <= d < |m| && m[d] ==> d in s
    requires Connected(w, h, m, a, b)
    ensures b in s
  {
    var p :| IsPath(w, h, m, p) && p[0] == a && p[|p| - 1] == b;
    var k := 0;
    while k < |p| - 1
      invariant 0 <= k < |p| && p[k] in s
    {
      assert Adjacent(w, h, p[k], p[k + 1]);
      k := k + 1;
    }
  }

  /** The number of occurrences of v in s is the number of indices holding v. */
  lemma {:induction false} OccurrencesAreIndices<T>(s: seq<T>, v: T, m: set<int>)
    requires forall j :: j in m <==> 0 <= j < |s| && s[j] == v
    ensures multiset(s)[v] == |m|
  {
    if s != [] {
      var n := |s| - 1;
      assert s == s[..n] + [s[n]];
      if s[n] == v {
        OccurrencesAreIndices(s[..n], v, m - {n});
      } else {
        OccurrencesAreIndices(s[..n], v, m);
      }
    } else {
      assert forall j :: j !in m;
      assert m == {};
    }
  }
}
