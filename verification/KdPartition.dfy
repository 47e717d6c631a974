/** Splitting a range of the index vector in place: planeSplit and middleSplit_. */
module KdPartition {
  import opened Metric
  import opened KdSpec

  /** The side of the cut that a pass moves to the front: below it, or (second pass) at or below it. */
  predicate InFront(x: real, cutval: real, orEqual: bool) {
    if orEqual then x <= cutval else x < cutval
  }

  /** Entries [lo, hi) all belong in front of the cut (or, with front false, all behind it). */
  ghost predicate Side(points: seq<Point>, v: seq<nat>, lo: int, hi: int, f: nat, cutval: real,
                       orEqual: bool, front: bool)
    requires 0 <= lo && hi <= |v|
  {
    forall k :: lo <= k < hi ==> InFront(Coord(points, v[k], f), cutval, orEqual) == front
  }

  /** Swaps two entries of [lo, hi), which stays a rearrangement of what it was. */
  method SwapEntries(vind: array<nat>, lo: nat, hi: nat, i: nat, j: nat, ghost orig: seq<nat>)
    requires lo <= i < hi <= vind.Length && lo <= j < hi
    requires Rearranged(orig, vind[..], lo, hi)
    modifies vind
    ensures Rearranged(orig, vind[..], lo, hi)
    ensures vind[i] == old(vind[j]) && vind[j] == old(vind[i])
    ensures forall k :: 0 <= k < vind.Length && k != i && k != j ==> vind[k] == old(vind[k])
  {
    ghost var before := vind[..];
    vind[i], vind[j] := vind[j], vind[i];
    assert vind[..] == before[i := before[j]][j := before[i]];
    SwapRearranges(before, lo, hi, i, j);
    RearrangedTrans(orig, before, vind[..], lo, hi);
  }

  /** The two inner loops of a pass: both indices walk inwards as far as the entries allow. Both
      are unsigned in the source: `right` stops at zero instead of stepping below it. */
  method WalkInwards(points: seq<Point>, vind: array<nat>, off: nat, l: nat, r: nat,
                     f: nat, cutval: real, orEqual: bool)
    returns (left: nat, right: nat)
    requires l <= r + 1 && off + r < vind.Length
    ensures l <= left <= right + 1 && right <= r
    ensures Side(points, vind[..], off + l, off + left, f, cutval, orEqual, true)
    ensures Side(points, vind[..], off + right + 1, off + r + 1, f, cutval, orEqual, false)
    ensures left <= right ==> !InFront(Coord(points, vind[off + left], f), cutval, orEqual)
    ensures left <= right && right != 0 ==> InFront(Coord(points, vind[off + right], f), cutval, orEqual)
  {
    left, right := l, r;
    while left <= right && InFront(Coord(points, vind[off + left], f), cutval, orEqual)
      invariant l <= left <= right + 1
      invariant Side(points, vind[..], off + l, off + left, f, cutval, orEqual, true)
    {
      left := left + 1;
    }
    while right != 0 && left <= right && !InFront(Coord(points, vind[off + right], f), cutval, orEqual)
      invariant left <= right + 1 && right <= r
      invariant Side(points, vind[..], off + right + 1, off + r + 1, f, cutval, orEqual, false)
    {
      right := right - 1;
    }
  }

  /** One of the two passes of planeSplit over ind[from..count), with ind = vind + off. */
  method SweepPass(points: seq<Point>, vind: array<nat>, off: nat, from: nat, count: nat,
                   f: nat, cutval: real, orEqual: bool)
    returns (lim: nat)
    requires from <= count && 1 <= count && off + count <= vind.Length
    modifies vind
    ensures from <= lim <= count
    ensures Rearranged(old(vind[..]), vind[..], off + from, off + count)
    ensures Side(points, vind[..], off + from, off + lim, f, cutval, orEqual, true)
    ensures Side(points, vind[..], off + lim, off + count, f, cutval, orEqual, false)
  {
    ghost var orig := vind[..];
    var left: nat, right: nat := from, count - 1;
    while true
      invariant from <= left <= right + 1 <= count
      invariant Rearranged(orig, vind[..], off + from, off + count)
      invariant Side(points, vind[..], off + from, off + left, f, cutval, orEqual, true)
      invariant Side(points, vind[..], off + right + 1, off + count, f, cutval, orEqual, false)
      decreases right + 1 - left
    {
      left, right := WalkInwards(points, vind, off, left, right, f, cutval, orEqual);
      if left > right || right == 0 {
        break;
      }
      SwapEntries(vind, off + from, off + count, off + left, off + right, orig);
      left, right := left + 1, right - 1;
    }
    lim := left;
  }

  /** planeSplit: the range falls into coordinates below, at and above the cut. */
  method PlaneSplit(points: seq<Point>, vind: array<nat>, off: nat, count: nat, f: nat, cutval: real)
    returns (lim1: nat, lim2: nat)
    requires 1 <= count && off + count <= vind.Length
    modifies vind
    ensures lim1 <= lim2 <= count
    ensures Rearranged(old(vind[..]), vind[..], off, off + count)
    ensures forall k :: off <= k < off + lim1 ==> Coord(points, vind[k], f) < cutval
    ensures forall k :: off + lim1 <= k < off + lim2 ==> Coord(points, vind[k], f) == cutval
    ensures forall k :: off + lim2 <= k < off + count ==> Coord(points, vind[k], f) > cutval
  {
    lim1 := SweepPass(points, vind, off, 0, count, f, cutval, false);
    ghost var mid := vind[..];
    lim2 := SweepPass(points, vind, off, lim1, count, f, cutval, true);
    TwoPasses(points, old(vind[..]), mid, vind[..], off, lim1, off + count, f, cutval);
  }

  /** The second pass keeps what the first one achieved. */
  lemma TwoPasses(points: seq<Point>, a: seq<nat>, b: seq<nat>, c: seq<nat>, off: nat, lim1: nat, hi: nat,
                  f: nat, cutval: real)
    requires off + lim1 <= hi
    requires Rearranged(a, b, off, hi) && Rearranged(b, c, off + lim1, hi)
    requires Side(points, b, off, off + lim1, f, cutval, false, true)
    requires Side(points, b, off + lim1, hi, f, cutval, false, false)
    ensures Rearranged(a, c, off, hi)
    ensures Side(points, c, off, off + lim1, f, cutval, false, true)
    ensures AllAtLeast(points, c, off + lim1, hi, f, cutval)
  {
    RearrangedBounds(points, b, c, off + lim1, hi, f, cutval);
    assert AllAtLeast(points, b, off + lim1, hi, f, cutval);
  }

  /** computeMinMax: the range of coordinate f over the entries of [lo, hi). */
  method ComputeMinMax(points: seq<Point>, vind: array<nat>, lo: nat, hi: nat, f: nat) returns (min: real, max: real)
    requires lo < hi <= vind.Length
    ensures min == MinCoord(points, vind[..], lo, hi, f) && max == MaxCoord(points, vind[..], lo, hi, f)
  {
    min, max := Coord(points, vind[lo], f), Coord(points, vind[lo], f);
    for k := lo + 1 to hi
      invariant min == MinCoord(points, vind[..], lo, k, f) && max == MaxCoord(points, vind[..], lo, k, f)
    {
      var val := Coord(points, vind[k], f);
      if val < min { min := val; }
      if val > max { max := val; }
    }
  }

  const EPS := 0.00001

  /** The longest side among the first n sides of a box. */
  function MaxSpan(bbox: seq<Interval>, n: nat): real
    requires 0 < n <= |bbox|
  {
    var span := bbox[n - 1].high - bbox[n - 1].low;
    if n == 1 then span else
    var m := MaxSpan(bbox, n - 1);
    if span > m then span else m
  }

  function Span(iv: Interval): real {
    iv.high - iv.low
  }

  /** A side that is more than 0.99999 times as long as every side. */
  ghost predicate Candidate(bbox: seq<Interval>, i: nat)
    requires i < |bbox|
  {
    forall j :: 0 <= j < |bbox| ==> Span(bbox[i]) > 0.99999 * Span(bbox[j])
  }

  lemma {:induction false} MaxSpanIsLongest(bbox: seq<Interval>, n: nat)
    requires 0 < n <= |bbox|
    ensures forall j :: 0 <= j < n ==> Span(bbox[j]) <= MaxSpan(bbox, n)
    ensures exists j :: 0 <= j < n && Span(bbox[j]) == MaxSpan(bbox, n)
  {
    if n == 1 {
      assert Span(bbox[0]) == MaxSpan(bbox, 1);
    } else {
      MaxSpanIsLongest(bbox, n - 1);
      var j :| 0 <= j < n - 1 && Span(bbox[j]) == MaxSpan(bbox, n - 1);
      assert Span(bbox[n - 1]) == MaxSpan(bbox, n) || Span(bbox[j]) == MaxSpan(bbox, n);
    }
  }

  /** The test of the loop against the longest side. */
  lemma CandidateTest(bbox: seq<Interval>, i: nat)
    requires i < |bbox|
    ensures Candidate(bbox, i) <==> Span(bbox[i]) > (1.0 - EPS) * MaxSpan(bbox, |bbox|)
  {
    MaxSpanIsLongest(bbox, |bbox|);
    var longest := MaxSpan(bbox, |bbox|);
    var j :| 0 <= j < |bbox| && Span(bbox[j]) == longest;
    if Span(bbox[i]) > (1.0 - EPS) * longest {
      forall k | 0 <= k < |bbox| ensures Span(bbox[i]) > 0.99999 * Span(bbox[k]) {
        assert 0.99999 * Span(bbox[k]) <= 0.99999 * longest;
      }
    }
  }

  function Spread(points: seq<Point>, v: seq<nat>, lo: nat, hi: nat, f: nat): real
    requires lo < hi <= |v|
  {
    MaxCoord(points, v, lo, hi, f) - MinCoord(points, v, lo, hi, f)
  }

  /** Among the first n candidates, f is the first of those with the widest spread; 0 if there is none. */
  ghost predicate Widest(points: seq<Point>, v: seq<nat>, lo: nat, hi: nat, bbox: seq<Interval>, n: nat, f: nat)
    requires lo < hi <= |v| && n <= |bbox|
  {
    if forall i :: 0 <= i < n ==> !Candidate(bbox, i) then f == 0 else
    && f < n && Candidate(bbox, f)
    && forall i :: 0 <= i < n && Candidate(bbox, i) ==>
         if i < f then Spread(points, v, lo, hi, i) < Spread(points, v, lo, hi, f)
         else Spread(points, v, lo, hi, i) <= Spread(points, v, lo, hi, f)
  }

  /** Picks the coordinate to cut. */
  method ChooseFeature(points: seq<Point>, dim: nat, vind: array<nat>, off: nat, count: nat, bbox: seq<Interval>)
    returns (cutfeat: nat)
    requires 0 < dim == |bbox| && 1 <= count && off + count <= vind.Length
    ensures cutfeat < dim && Widest(points, vind[..], off, off + count, bbox, dim, cutfeat)
  {
    var maxSpan := bbox[0].high - bbox[0].low;
    for i := 1 to dim
      invariant maxSpan == MaxSpan(bbox, i)
    {
      var span := bbox[i].high - bbox[i].low;
      if span > maxSpan { maxSpan := span; }
    }
    var maxSpread := -1.0;
    cutfeat := 0;
    for i := 0 to dim
      invariant cutfeat < dim && Widest(points, vind[..], off, off + count, bbox, i, cutfeat)
      invariant maxSpread == if forall j :: 0 <= j < i ==> !Candidate(bbox, j) then -1.0
                             else Spread(points, vind[..], off, off + count, cutfeat)
    {
      var span := bbox[i].high - bbox[i].low;
      CandidateTest(bbox, i);
      if span > (1.0 - EPS) * maxSpan {
        var min, max := ComputeMinMax(points, vind, off, off + count, i);
        MinBelowMax(points, vind[..], off, off + count, i);
        var spread := max - min;
        if spread > maxSpread {
          cutfeat, maxSpread := i, spread;
        }
      }
    }
  }

  lemma MinBelowMax(points: seq<Point>, v: seq<nat>, lo: nat, hi: nat, f: nat)
    requires lo < hi <= |v|
    ensures MinCoord(points, v, lo, hi, f) <= MaxCoord(points, v, lo, hi, f)
  {
    MinMaxTight(points, v, lo, hi, f);
    assert MinCoord(points, v, lo, hi, f) <= Coord(points, v[lo], f);
  }

  /** The middle of the box side, moved into the range of the coordinates if it lies outside. */
  function CutValue(iv: Interval, min: real, max: real): real {
    var mid := (iv.low + iv.high) / 2.0;
    if mid < min then min else if mid > max then max else mid
  }

  /** Twice the distance from the middle of the interval. */
  function OffMiddle(iv: Interval, x: real): real {
    Abs((x - iv.low) - (iv.high - x))
  }

  /** Of all values between min and max, x is the one nearest to the middle of the interval. */
  ghost predicate NearestToMiddle(iv: Interval, min: real, max: real, x: real) {
    min <= x <= max && forall y :: min <= y <= max && y != x ==> OffMiddle(iv, x) < OffMiddle(iv, y)
  }

  lemma CutValueIs(iv: Interval, min: real, max: real)
    requires min <= max
    ensures NearestToMiddle(iv, min, max, CutValue(iv, min, max))
  {
    var mid := (iv.low + iv.high) / 2.0;
    assert forall y :: OffMiddle(iv, y) == 2.0 * Abs(y - mid);
  }

  /** middleSplit_: whatever box is handed in, both sides are non-empty and lie on their side of the
      cut; the split is in the middle unless a whole side would have to be cut through. */
  method MiddleSplit(points: seq<Point>, dim: nat, vind: array<nat>, off: nat, count: nat, bbox: seq<Interval>)
    returns (index: nat, cutfeat: nat, cutval: real)
    requires 0 < dim == |bbox| && 2 <= count && off + count <= vind.Length
    modifies vind
    ensures 0 < index < count && cutfeat < dim
    ensures Rearranged(old(vind[..]), vind[..], off, off + count)
    ensures Widest(points, old(vind[..]), off, off + count, bbox, dim, cutfeat)
    ensures NearestToMiddle(bbox[cutfeat], MinCoord(points, old(vind[..]), off, off + count, cutfeat),
                            MaxCoord(points, old(vind[..]), off, off + count, cutfeat), cutval)
    ensures AllAtMost(points, vind[..], off, off + index, cutfeat, cutval)
    ensures AllAtLeast(points, vind[..], off + index, off + count, cutfeat, cutval)
    ensures index > count / 2 ==> forall k :: off <= k < off + index ==> Coord(points, vind[k], cutfeat) < cutval
    ensures index < count / 2 ==>
      forall k :: off + index <= k < off + count ==> Coord(points, vind[k], cutfeat) > cutval
  {
    hide Rearranged, Widest, MinCoord, MaxCoord, CutValue, NearestToMiddle;
    cutfeat := ChooseFeature(points, dim, vind, off, count, bbox);
    var min, max := ComputeMinMax(points, vind, off, off + count, cutfeat);
    MinMaxTight(points, vind[..], off, off + count, cutfeat);
    MinBelowMax(points, vind[..], off, off + count, cutfeat);
    cutval := CutValue(bbox[cutfeat], min, max);
    CutValueIs(bbox[cutfeat], min, max);
    var lim1, lim2 := PlaneSplit(points, vind, off, count, cutfeat, cutval);
    assert lim1 < count by {
      AttainedAfter(points, old(vind[..]), vind[..], off, off + count, cutfeat, max);
    }
    assert 0 < lim2 by {
      AttainedAfter(points, old(vind[..]), vind[..], off, off + count, cutfeat, min);
    }
    index := if lim1 > count / 2 then lim1 else if lim2 < count / 2 then lim2 else count / 2;
  }

  lemma AttainedAfter(points: seq<Point>, a: seq<nat>, b: seq<nat>, lo: nat, hi: nat, f: nat, x: real)
    requires Rearranged(a, b, lo, hi) && Attained(points, a, lo, hi, f, x)
    ensures Attained(points, b, lo, hi, f, x)
  {
    var k :| lo <= k < hi && Coord(points, a[k], f) == x;
    var j := RearrangedMember(b, a, lo, hi, k);
  }
}
