/** Connected-region labelling (labelRegions, floodFill): every 4-connected
    region of non-zero pixels gets its own positive label; the labels used
    are exactly 1, 2, ..., one per region, handed out as the row-major scan
    meets a pixel of a region it has not labelled yet. */
module Regions {
  import opened Grid

  /** The non-zero pixels. */
  function Foreground(data: seq<Byte>): (m: seq<bool>)
    ensures |m| == |data| && forall j :: 0 <= j < |data| ==> (m[j] <==> data[j] > 0)
  {
    seq(|data|, j requires 0 <= j < |data| => data[j] > 0)
  }

  /** The pixels a flood fill may label: non-zero and not yet labelled. */
  function FillMask(data: seq<Byte>, labels: seq<nat>): (m: seq<bool>)
    requires |labels| == |data|
    ensures |m| == |data| && forall j :: 0 <= j < |data| ==> (m[j] <==> data[j] > 0 && labels[j] == 0)
  {
    seq(|data|, j requires 0 <= j < |data| => data[j] > 0 && labels[j] == 0)
  }

  /** Pushes the 4-connected neighbours of idx that lie inside the image:
      left, right, up, down. */
  method PushNeighbours(stack: seq<int>, w: nat, h: nat, idx: nat) returns (pushed: seq<int>)
    requires w > 0
    ensures pushed == stack + Neighbours(w, h, idx)
  {
    pushed := stack;
    var x := idx % w;
    var y := idx / w;
    if x > 0 {
      pushed := pushed + [idx - 1];
    }
    if x < w - 1 {
      pushed := pushed + [idx + 1];
    }
    if y > 0 {
      pushed := pushed + [idx - w];
    }
    if y < h - 1 {
      pushed := pushed + [idx + w];
    }
  }

  /** What the flood fill maintains about the pixels it has filled and the
      pixels on its stack, for the fill mask m: the stack stays inside the
      image; every filled pixel is admitted by m and reachable from start;
      every admitted neighbour of a filled pixel is filled or on the stack;
      start is filled or on the stack; admitted stack pixels are reachable. */
  ghost predicate FillState(w: nat, h: nat, m: seq<bool>, start: int, filled: set<int>, stack: seq<int>)
  {
    (forall k :: 0 <= k < |stack| ==> 0 <= stack[k] < |m|) &&
    (forall j :: j in filled ==> 0 <= j < |m| && m[j] && Connected(w, h, m, start, j)) &&
    (forall c, d :: c in filled && Adjacent(w, h, c, d) && 0 <= d < |m| && m[d] ==> d in filled || d in stack) &&
    (0 <= start < |m| && m[start] ==> start in filled || start in stack) &&
    (forall k :: 0 <= k < |stack| && m[stack[k]] ==> Connected(w, h, m, start, stack[k]))
  }

  /** A popped pixel that is not admitted, or already filled, is dropped. */
  lemma FillSkip(w: nat, h: nat, m: seq<bool>, start: int, filled: set<int>, rest: seq<int>, idx: int)
    requires FillState(w, h, m, start, filled, rest + [idx])
    requires 0 <= idx < |m| && (!m[idx] || idx in filled)
    ensures FillState(w, h, m, start, filled, rest)
  {
    var stack := rest + [idx];
    assert forall k :: 0 <= k < |rest| ==> rest[k] == stack[k];
    forall c, d | c in filled && Adjacent(w, h, c, d) && 0 <= d < |m| && m[d]
      ensures d in filled || d in rest
    {
      assert d in filled || d in stack;
    }
  }

  /** Filling a popped admitted pixel and pushing its neighbours keeps the state. */
  lemma FillVisit(w: nat, h: nat, m: seq<bool>, start: int, filled: set<int>, rest: seq<int>, idx: nat)
    requires w > 0 && |m| == w * h
    requires FillState(w, h, m, start, filled, rest + [idx])
    requires idx < |m| && m[idx] && idx !in filled
    ensures FillState(w, h, m, start, filled + {idx}, rest + Neighbours(w, h, idx))
  {
    var before, after := rest + [idx], rest + Neighbours(w, h, idx);
    NeighboursAreAdjacent(w, h, idx);
    assert Connected(w, h, m, start, idx) by {
      assert before[|rest|] == idx;
    }
    forall k | 0 <= k < |after|
      ensures 0 <= after[k] < |m| && (m[after[k]] ==> Connected(w, h, m, start, after[k]))
    {
      if k < |rest| {
        assert after[k] == before[k];
      } else {
        var d := after[k];
        assert d in Neighbours(w, h, idx);
        if m[d] {
          ConnectedStep(w, h, m, start, idx, d);
        }
      }
    }
    forall c, d | c in filled + {idx} && Adjacent(w, h, c, d) && 0 <= d < |m| && m[d]
      ensures d in filled + {idx} || d in after
    {
      if c == idx {
        assert d in Neighbours(w, h, idx);
      } else {
        assert d in filled || d in before;
      }
    }
  }

  /** The admitted pixels not yet filled: what bounds the flood fill's work. */
  ghost function Unfilled(m: seq<bool>, filled: set<int>): set<int>
  {
    (set j | 0 <= j < |m| && m[j]) - filled
  }

  lemma UnfilledShrinks(m: seq<bool>, filled: set<int>, idx: int)
    requires 0 <= idx < |m| && m[idx] && idx !in filled
    ensures Unfilled(m, filled + {idx}) < Unfilled(m, filled)
  {
    assert idx in Unfilled(m, filled);
  }

  /** With the stack empty, the filled pixels are exactly those reachable from start. */
  lemma FillComplete(w: nat, h: nat, m: seq<bool>, start: int, filled: set<int>)
    requires FillState(w, h, m, start, filled, [])
    ensures forall j :: 0 <= j < |m| ==> (j in filled <==> Connected(w, h, m, start, j))
  {
    forall j | 0 <= j < |m| && Connected(w, h, m, start, j)
      ensures j in filled
    {
      ConnectedEnds(w, h, m, start, j);
      ClosedHoldsComponent(w, h, m, filled, start, j);
    }
  }

  /** One turn of the flood fill loop: pops a pixel and, when it is
      non-zero and unlabelled, labels it and pushes its neighbours. */
  method FillStep(data: seq<Byte>, labels: array<nat>, w: nat, h: nat, newLabel: nat, stack: seq<int>,
                  ghost m: seq<bool>, ghost before: seq<nat>, ghost start: int, ghost filled: set<int>)
    returns (next: seq<int>, ghost filledNext: set<int>)
    requires w > 0 && |data| == w * h && labels.Length == w * h && |before| == w * h
    requires m == FillMask(data, before) && |stack| > 0 && FillState(w, h, m, start, filled, stack)
    requires forall j :: 0 <= j < w * h ==> labels[j] == if j in filled then newLabel else before[j]
    requires newLabel > 0
    modifies labels
    ensures FillState(w, h, m, start, filledNext, next)
    ensures forall j :: 0 <= j < w * h ==> labels[j] == if j in filledNext then newLabel else before[j]
    ensures Unfilled(m, filledNext) < Unfilled(m, filled) ||
      (Unfilled(m, filledNext) == Unfilled(m, filled) && |next| < |stack|)
  {
    var idx := stack[|stack| - 1];
    var rest := stack[..|stack| - 1];
    assert stack == rest + [idx];
    next, filledNext := rest, filled;
    if labels[idx] != 0 || data[idx] == 0 {
      FillSkip(w, h, m, start, filled, rest, idx);
      return;
    }
    FillVisit(w, h, m, start, filled, rest, idx);
    UnfilledShrinks(m, filled, idx);
    labels[idx] := newLabel;
    filledNext := filled + {idx};
    next := PushNeighbours(next, w, h, idx);
  }

  /** floodFill: labels, with an explicit stack, every pixel reachable from
      `start` through non-zero unlabelled pixels, and nothing else. */
  method FloodFill(data: seq<Byte>, labels: array<nat>, w: nat, h: nat, start: nat, newLabel: nat)
    requires w > 0 && |data| == w * h && labels.Length == w * h && start < w * h && newLabel > 0
    modifies labels
    ensures forall j :: 0 <= j < w * h ==>
      labels[j] == if Connected(w, h, FillMask(data, old(labels[..])), start, j) then newLabel else old(labels[j])
  {
    ghost var before := labels[..];
    ghost var m := FillMask(data, before);
    ghost var filled: set<int> := {};
    var stack := [start];
    while |stack| > 0
      invariant FillState(w, h, m, start, filled, stack)
      invariant forall j :: 0 <= j < w * h ==> labels[j] == if j in filled then newLabel else before[j]
      decreases Unfilled(m, filled), |stack|
    {
      stack, filled := FillStep(data, labels, w, h, newLabel, stack, m, before, start, filled);
    }
    FillComplete(w, h, m, start, filled);
  }

  /** What labelRegions maintains: labels below `next`, only non-zero pixels
      labelled, a labelled pixel's whole region carries its label, and a
      label never spans two regions. */
  ghost predicate Labelling(data: seq<Byte>, w: nat, h: nat, labels: seq<nat>, next: nat)
  {
    var fg := Foreground(data);
    |labels| == |data| &&
    (forall j :: 0 <= j < |data| ==> labels[j] < next) &&
    (forall j :: 0 <= j < |data| && labels[j] > 0 ==> data[j] > 0) &&
    (forall j, k :: 0 <= j < |data| && 0 <= k < |data| && labels[j] > 0 && Connected(w, h, fg, j, k) ==>
      labels[k] == labels[j]) &&
    (forall j, k :: 0 <= j < |data| && 0 <= k < |data| && labels[j] > 0 && labels[k] == labels[j] ==>
      Connected(w, h, fg, j, k))
  }

  /** Starting from an unlabelled non-zero pixel, the pixels reachable
      through unlabelled non-zero pixels are those of its whole region:
      no labelled pixel touches that region. */
  lemma FillReachesRegion(data: seq<Byte>, w: nat, h: nat, labels: seq<nat>, next: nat, i: int, j: int)
    requires Labelling(data, w, h, labels, next)
    requires 0 <= i < |data| && data[i] > 0 && labels[i] == 0
    ensures Connected(w, h, FillMask(data, labels), i, j) <==> Connected(w, h, Foreground(data), i, j)
  {
    var fg, m := Foreground(data), FillMask(data, labels);
    if Connected(w, h, m, i, j) {
      ConnectedMono(w, h, m, fg, i, j);
    }
    if Connected(w, h, fg, i, j) {
      var s := set k | 0 <= k < |data| && Connected(w, h, m, i, k);
      ConnectedRefl(w, h, m, i);
      forall c, d | c in s && Adjacent(w, h, c, d) && 0 <= d < |fg| && fg[d]
        ensures d in s
      {
        ConnectedMono(w, h, m, fg, i, c);
        ConnectedStep(w, h, fg, i, c, d);
        if labels[d] > 0 {
          ConnectedSym(w, h, fg, i, d);
          assert false;
        }
        ConnectedStep(w, h, m, i, c, d);
      }
      ClosedHoldsComponent(w, h, fg, s, i, j);
    }
  }

  /** Labelling the whole region of an unlabelled pixel i with `next` keeps
      the labelling consistent and leaves every earlier label in place. */
  lemma FillKeepsLabelling(data: seq<Byte>, w: nat, h: nat, before: seq<nat>, after: seq<nat>, next: nat, i: int)
    requires Labelling(data, w, h, before, next) && next > 0
    requires 0 <= i < |data| && data[i] > 0 && before[i] == 0 && |after| == |data|
    requires forall j :: 0 <= j < |data| ==>
      after[j] == if Connected(w, h, Foreground(data), i, j) then next else before[j]
    ensures Labelling(data, w, h, after, next + 1)
    ensures after[i] == next
    ensures forall j :: 0 <= j < |data| && before[j] > 0 ==> after[j] == before[j]
  {
    var fg := Foreground(data);
    ConnectedRefl(w, h, fg, i);
    forall j | 0 <= j < |data| && before[j] > 0
      ensures !Connected(w, h, fg, i, j)
    {
      if Connected(w, h, fg, i, j) {
        ConnectedSym(w, h, fg, i, j);
        assert false;
      }
    }
    forall j | 0 <= j < |data| && after[j] > 0
      ensures data[j] > 0
    {
      if Connected(w, h, fg, i, j) {
        ConnectedEnds(w, h, fg, i, j);
      }
    }
    forall j, k | 0 <= j < |data| && 0 <= k < |data| && after[j] > 0 && Connected(w, h, fg, j, k)
      ensures after[k] == after[j]
    {
      if Connected(w, h, fg, i, j) {
        ConnectedTrans(w, h, fg, i, j, k);
      } else if Connected(w, h, fg, i, k) {
        ConnectedSym(w, h, fg, j, k);
        ConnectedTrans(w, h, fg, i, k, j);
        assert false;
      }
    }
    forall j, k | 0 <= j < |data| && 0 <= k < |data| && after[j] > 0 && after[k] == after[j]
      ensures Connected(w, h, fg, j, k)
    {
      if Connected(w, h, fg, i, j) && Connected(w, h, fg, i, k) {
        ConnectedSym(w, h, fg, i, j);
        ConnectedTrans(w, h, fg, j, i, k);
      }
    }
  }

  /** The state of labelRegions' scan before pixel i: a consistent
      labelling with labels below `next`, every non-zero pixel before i
      labelled, and seeds[l] a pixel labelled l + 1. */
  ghost predicate ScanState(data: seq<Byte>, w: nat, h: nat, labels: seq<nat>, next: nat, i: int, seeds: seq<int>)
  {
    Labelling(data, w, h, labels, next) && next > 0 && 0 <= i <= |data| &&
    (forall j :: 0 <= j < i && data[j] > 0 ==> labels[j] > 0) &&
    |seeds| == next - 1 &&
    (forall l :: 0 <= l < |seeds| ==> 0 <= seeds[l] < |data| && labels[seeds[l]] == l + 1)
  }

  /** A pixel that is zero or already labelled is passed over. */
  lemma ScanSkip(data: seq<Byte>, w: nat, h: nat, labels: seq<nat>, next: nat, i: int, seeds: seq<int>)
    requires ScanState(data, w, h, labels, next, i, seeds) && i < |data|
    requires data[i] == 0 || labels[i] != 0
    ensures ScanState(data, w, h, labels, next, i + 1, seeds)
  {
  }

  /** A flood fill from an unlabelled non-zero pixel i with label `next`
      labels exactly its region, and the scan moves on with one more label. */
  lemma ScanFill(data: seq<Byte>, w: nat, h: nat, before: seq<nat>, after: seq<nat>, next: nat, i: int, seeds: seq<int>)
    requires ScanState(data, w, h, before, next, i, seeds) && i < |data|
    requires data[i] > 0 && before[i] == 0 && |after| == |data|
    requires forall j :: 0 <= j < |data| ==>
      after[j] == if Connected(w, h, FillMask(data, before), i, j) then next else before[j]
    ensures ScanState(data, w, h, after, next + 1, i + 1, seeds + [i])
  {
    forall j | 0 <= j < |data|
      ensures after[j] == if Connected(w, h, Foreground(data), i, j) then next else before[j]
    {
      FillReachesRegion(data, w, h, before, next, i, j);
    }
    FillKeepsLabelling(data, w, h, before, after, next, i);
  }

  /** At the end of the scan the labels answer the three questions about
      regions: labelled iff non-zero, same label iff connected, and the
      labels used are 1..regions. */
  lemma ScanDone(data: seq<Byte>, w: nat, h: nat, labels: seq<nat>, next: nat, seeds: seq<int>)
    requires ScanState(data, w, h, labels, next, |data|, seeds)
    ensures forall j :: 0 <= j < |data| ==> (labels[j] > 0 <==> data[j] > 0)
    ensures forall j, k :: 0 <= j < |data| && 0 <= k < |data| && data[j] > 0 && data[k] > 0 ==>
      (labels[j] == labels[k] <==> Connected(w, h, Foreground(data), j, k))
    ensures forall j :: 0 <= j < |data| ==> labels[j] <= next - 1
    ensures forall l :: 1 <= l <= next - 1 ==> l in labels
  {
    forall l | 1 <= l <= next - 1
      ensures l in labels
    {
      assert labels[seeds[l - 1]] == l;
    }
  }

  /** labelRegions: scans the pixels in order and flood-fills, with a fresh
      label, every non-zero pixel not yet labelled. On return the labels
      1..regions are exactly the 4-connected regions of non-zero pixels. */
  method LabelRegions(data: seq<Byte>, w: nat, h: nat) returns (labels: array<nat>, ghost regions: nat)
    requires |data| == w * h
    ensures fresh(labels) && labels.Length == |data|
    ensures forall j :: 0 <= j < |data| ==> (labels[j] > 0 <==> data[j] > 0)
    ensures forall j, k :: 0 <= j < |data| && 0 <= k < |data| && data[j] > 0 && data[k] > 0 ==>
      (labels[j] == labels[k] <==> Connected(w, h, Foreground(data), j, k))
    ensures forall j :: 0 <= j < |data| ==> labels[j] <= regions
    ensures forall l :: 1 <= l <= regions ==> l in labels[..]
  {
    labels := new nat[|data|](_ => 0);
    var nextLabel := 1;
    ghost var seeds: seq<int> := [];
    var i := 0;
    while i < |data|
      invariant labels.Length == |data| && ScanState(data, w, h, labels[..], nextLabel, i, seeds)
    {
      if data[i] > 0 && labels[i] == 0 {
        ghost var before := labels[..];
        FloodFill(data, labels, w, h, i, nextLabel);
        ScanFill(data, w, h, before, labels[..], nextLabel, i, seeds);
        seeds := seeds + [i];
        nextLabel := nextLabel + 1;
      } else {
        ScanSkip(data, w, h, labels[..], nextLabel, i, seeds);
      }
      i := i + 1;
    }
    regions := nextLabel - 1;
    ScanDone(data, w, h, labels[..], nextLabel, seeds);
  }
}
