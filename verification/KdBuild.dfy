/** Building the tree: divideTree permutes the index vector and returns nodes with tight boxes. */
module KdBuild {
  import opened Metric
  import opened KdSpec
  import opened KdPartition

  // ---------- tight boxes

  lemma ExtendBoxSide(points: seq<Point>, v: seq<nat>, lo: nat, k: nat, f: nat, iv: Interval, jv: Interval)
    requires lo <= k < |v| && TightInterval(points, v, lo, k, f, iv)
    requires var x := Coord(points, v[k], f);
      jv == Interval(if x < iv.low then x else iv.low, if x > iv.high then x else iv.high)
    ensures TightInterval(points, v, lo, k + 1, f, jv)
  {
    ExtendTight(points, v, lo, k, f, iv);
  }

  /** The box of the entries of [lo, hi), grown entry by entry and coordinate by coordinate. */
  method RangeBox(points: seq<Point>, dim: nat, v: seq<nat>, lo: nat, hi: nat) returns (bbox: seq<Interval>)
    requires lo < hi <= |v|
    ensures TightBox(points, dim, v, lo, hi, bbox)
  {
    bbox := seq(dim, f requires 0 <= f < dim => Interval(Coord(points, v[lo], f), Coord(points, v[lo], f)));
    assert TightBox(points, dim, v, lo, lo + 1, bbox) by {
      forall f | 0 <= f < dim ensures TightInterval(points, v, lo, lo + 1, f, bbox[f]) {
        assert Coord(points, v[lo], f) == bbox[f].low;
      }
    }
    for k := lo + 1 to hi
      invariant TightBox(points, dim, v, lo, k, bbox)
    {
      for f := 0 to dim
        invariant |bbox| == dim
        invariant forall g :: 0 <= g < f ==> TightInterval(points, v, lo, k + 1, g, bbox[g])
        invariant forall g :: f <= g < dim ==> TightInterval(points, v, lo, k, g, bbox[g])
      {
        var x, iv := Coord(points, v[k], f), bbox[f];
        var jv := Interval(if x < iv.low then x else iv.low, if x > iv.high then x else iv.high);
        ExtendBoxSide(points, v, lo, k, f, iv, jv);
        bbox := bbox[f := jv];
      }
    }
  }

  function Min(a: real, b: real): real { if b < a then b else a }

  function Max(a: real, b: real): real { if a < b then b else a }

  lemma MergeTight(points: seq<Point>, v: seq<nat>, lo: nat, mid: nat, hi: nat, f: nat, a: Interval, b: Interval)
    requires lo <= mid <= hi <= |v|
    requires TightInterval(points, v, lo, mid, f, a) && TightInterval(points, v, mid, hi, f, b)
    ensures TightInterval(points, v, lo, hi, f, Interval(Min(a.low, b.low), Max(a.high, b.high)))
  {
    WidenAttained(points, v, lo, mid, lo, hi, f, a.low);
    WidenAttained(points, v, lo, mid, lo, hi, f, a.high);
    WidenAttained(points, v, mid, hi, lo, hi, f, b.low);
    WidenAttained(points, v, mid, hi, lo, hi, f, b.high);
  }

  lemma WidenAttained(points: seq<Point>, v: seq<nat>, lo: nat, hi: nat, lo': nat, hi': nat, f: nat, x: real)
    requires lo' <= lo <= hi <= hi' <= |v| && Attained(points, v, lo, hi, f, x)
    ensures Attained(points, v, lo', hi', f, x)
  {
    var k :| lo <= k < hi && Coord(points, v[k], f) == x;
  }

  lemma TightFrame(points: seq<Point>, a: seq<nat>, b: seq<nat>, lo: nat, hi: nat, f: nat, iv: Interval)
    requires lo <= hi <= |a| == |b| && TightInterval(points, a, lo, hi, f, iv)
    requires forall k :: lo <= k < hi ==> a[k] == b[k]
    ensures TightInterval(points, b, lo, hi, f, iv)
  {
    var i :| lo <= i < hi && Coord(points, a[i], f) == iv.low;
    var j :| lo <= j < hi && Coord(points, a[j], f) == iv.high;
    assert Coord(points, b[i], f) == iv.low && Coord(points, b[j], f) == iv.high;
  }

  /** What a call of divideTree hands back for the range [left, right). */
  ghost predicate Divided(points: seq<Point>, dim: nat, leafMax: nat, v: seq<nat>, left: nat, right: nat,
                          node: Node, box: seq<Interval>)
  {
    && left < right <= |v|
    && TreeOk(points, dim, leafMax, v, node) && First(node) == left && Last(node) == right
    && TightBox(points, dim, v, left, right, box)
  }

  lemma DividedFrame(points: seq<Point>, dim: nat, leafMax: nat, a: seq<nat>, b: seq<nat>, left: nat, right: nat,
                     node: Node, box: seq<Interval>)
    requires Divided(points, dim, leafMax, a, left, right, node, box)
    requires |a| == |b| && forall k :: left <= k < right ==> a[k] == b[k]
    ensures Divided(points, dim, leafMax, b, left, right, node, box)
  {
    TreeOkFrame(points, dim, leafMax, a, b, node);
    forall f | 0 <= f < dim ensures TightInterval(points, b, left, right, f, box[f]) {
      TightFrame(points, a, b, left, right, f, box[f]);
    }
  }

  function MergeBoxes(dim: nat, a: seq<Interval>, b: seq<Interval>): seq<Interval>
    requires |a| == |b| == dim
  {
    seq(dim, f requires 0 <= f < dim => Interval(Min(a[f].low, b[f].low), Max(a[f].high, b[f].high)))
  }

  /** Two divided halves on their sides of a cut make a divided whole. */
  lemma JoinDivided(points: seq<Point>, dim: nat, leafMax: nat, v: seq<nat>, left: nat, mid: nat, right: nat,
                    f: nat, cutval: real, c1: Node, b1: seq<Interval>, c2: Node, b2: seq<Interval>)
    requires Divided(points, dim, leafMax, v, left, mid, c1, b1) && Divided(points, dim, leafMax, v, mid, right, c2, b2)
    requires f < dim && leafMax < right - left
    requires AllAtMost(points, v, left, mid, f, cutval) && AllAtLeast(points, v, mid, right, f, cutval)
    ensures Divided(points, dim, leafMax, v, left, right,
                    Inner(f, b1[f].high, b2[f].low, c1, c2), MergeBoxes(dim, b1, b2))
  {
    assert TightInterval(points, v, left, mid, f, b1[f]) && TightInterval(points, v, mid, right, f, b2[f]);
    assert b1[f].high <= cutval <= b2[f].low;
    forall g | 0 <= g < dim ensures TightInterval(points, v, left, right, g, MergeBoxes(dim, b1, b2)[g]) {
      MergeTight(points, v, left, mid, right, g, b1[g], b2[g]);
    }
  }

  /** The two recursive calls one after the other: the second leaves the first half alone. */
  lemma JoinCalls(points: seq<Point>, dim: nat, leafMax: nat, v1: seq<nat>, v2: seq<nat>, v3: seq<nat>,
                  left: nat, mid: nat, right: nat,
                  f: nat, cutval: real, c1: Node, b1: seq<Interval>, c2: Node, b2: seq<Interval>)
    requires left <= mid <= right && f < dim && leafMax < right - left
    requires Rearranged(v1, v2, left, mid) && Rearranged(v2, v3, mid, right)
    requires AllAtMost(points, v1, left, mid, f, cutval) && AllAtLeast(points, v1, mid, right, f, cutval)
    requires Divided(points, dim, leafMax, v2, left, mid, c1, b1)
    requires Divided(points, dim, leafMax, v3, mid, right, c2, b2)
    ensures Rearranged(v1, v3, left, right)
    ensures Divided(points, dim, leafMax, v3, left, right,
                    Inner(f, b1[f].high, b2[f].low, c1, c2), MergeBoxes(dim, b1, b2))
  {
    RearrangedBounds(points, v1, v2, left, mid, f, cutval);
    RearrangedBounds(points, v2, v3, mid, right, f, cutval);
    DividedFrame(points, dim, leafMax, v2, v3, left, mid, c1, b1);
    JoinDivided(points, dim, leafMax, v3, left, mid, right, f, cutval, c1, b1, c2, b2);
  }

  /** divideTree on [left, right); the box comes in as a guess and goes out tight. */
  method DivideTree(points: seq<Point>, dim: nat, leafMax: nat, vind: array<nat>, left: nat, right: nat,
                    bbox: seq<Interval>)
    returns (node: Node, box: seq<Interval>)
    requires 0 < dim == |bbox| && 1 <= leafMax
    requires left < right <= vind.Length
    modifies vind
    ensures Rearranged(old(vind[..]), vind[..], left, right)
    ensures Divided(points, dim, leafMax, vind[..], left, right, node, box)
    decreases right - left
  {
    if right - left <= leafMax {
      node := Leaf(left, right);
      box := RangeBox(points, dim, vind[..], left, right);
    } else {
      var idx, cutfeat, cutval := MiddleSplit(points, dim, vind, left, right - left, bbox);
      ghost var v1 := vind[..];
      var child1, leftBox := DivideTree(points, dim, leafMax, vind, left, left + idx,
                                        bbox[cutfeat := Interval(bbox[cutfeat].low, cutval)]);
      ghost var v2 := vind[..];
      var child2, rightBox := DivideTree(points, dim, leafMax, vind, left + idx, right,
                                         bbox[cutfeat := Interval(cutval, bbox[cutfeat].high)]);
      JoinCalls(points, dim, leafMax, v1, v2, vind[..], left, left + idx, right, cutfeat, cutval,
                child1, leftBox, child2, rightBox);
      node := Inner(cutfeat, leftBox[cutfeat].high, rightBox[cutfeat].low, child1, child2);
      box := MergeBoxes(dim, leftBox, rightBox);
    }
  }
}
