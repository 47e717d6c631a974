/** What a KD-tree over a permuted index vector has to satisfy, and what permuting a range keeps. */
module KdSpec {
  import opened Metric

  datatype Interval = Interval(low: real, high: real)

  datatype Node =
    | Leaf(left: nat, right: nat)
    | Inner(divfeat: nat, divlow: real, divhigh: real, child1: Node, child2: Node)

  ghost predicate DataOk(points: seq<Point>, dim: nat) {
    dim > 0 && forall i :: 0 <= i < |points| ==> |points[i]| == dim
  }

  /** Coordinate f of point i; 0.0 where there is none. */
  function Coord(points: seq<Point>, i: nat, f: nat): real {
    if i < |points| && f < |points[i]| then points[i][f] else 0.0
  }

  // ---------- permutations of a range

  /** b is a with only the entries of [lo, hi) rearranged. */
  ghost predicate Rearranged(a: seq<nat>, b: seq<nat>, lo: nat, hi: nat) {
    && |a| == |b| && lo <= hi <= |a|
    && multiset(a) == multiset(b)
    && forall k :: 0 <= k < |a| && !(lo <= k < hi) ==> a[k] == b[k]
  }

  lemma RearrangedTrans(a: seq<nat>, b: seq<nat>, c: seq<nat>, lo: nat, hi: nat)
    requires Rearranged(a, b, lo, hi) && Rearranged(b, c, lo, hi)
    ensures Rearranged(a, c, lo, hi)
  {
  }

  lemma SwapRearranges(a: seq<nat>, lo: nat, hi: nat, i: nat, j: nat)
    requires lo <= i < hi <= |a| && lo <= j < hi
    ensures Rearranged(a, a[i := a[j]][j := a[i]], lo, hi)
  {
  }

  /** Leaving a common rest aside, the two ranges hold the same entries equally often. */
  lemma RearrangedRange(a: seq<nat>, b: seq<nat>, lo: nat, hi: nat)
    requires Rearranged(a, b, lo, hi)
    ensures multiset(a[lo..hi]) == multiset(b[lo..hi])
  {
    ThreeParts(a, lo, hi);
    ThreeParts(b, lo, hi);
    assert a[..lo] == b[..lo] && a[hi..] == b[hi..];
    Cancel(multiset(a[..lo]) + multiset(a[hi..]), multiset(a[lo..hi]), multiset(b[lo..hi]));
  }

  lemma ThreeParts(a: seq<nat>, lo: nat, hi: nat)
    requires lo <= hi <= |a|
    ensures multiset(a) == multiset(a[..lo]) + multiset(a[hi..]) + multiset(a[lo..hi])
  {
    assert a == a[..lo] + a[lo..hi] + a[hi..];
  }

  lemma Cancel(rest: multiset<nat>, x: multiset<nat>, y: multiset<nat>)
    requires rest + x == rest + y
    ensures x == y
  {
    assert x == (rest + x) - rest;
    assert y == (rest + y) - rest;
  }

  /** Every entry of the rearranged range was in the range before. */
  lemma RearrangedMember(a: seq<nat>, b: seq<nat>, lo: nat, hi: nat, k: nat) returns (j: nat)
    requires Rearranged(a, b, lo, hi) && lo <= k < hi
    ensures lo <= j < hi && a[j] == b[k]
  {
    RearrangedRange(a, b, lo, hi);
    assert b[k] == b[lo..hi][k - lo];
    assert b[k] in multiset(b[lo..hi]);
    assert b[k] in a[lo..hi];
    j :| lo <= j < hi && a[j] == b[k];
  }

  /** The indices standing in [lo, hi). */
  ghost function IndexSet(v: seq<nat>, lo: nat, hi: nat): set<nat>
    requires lo <= hi <= |v|
  {
    set k | lo <= k < hi :: v[k]
  }

  // ---------- bounds on one coordinate over a range

  ghost predicate AllAtMost(points: seq<Point>, v: seq<nat>, lo: nat, hi: nat, f: nat, x: real)
    requires lo <= hi <= |v|
  {
    forall k :: lo <= k < hi ==> Coord(points, v[k], f) <= x
  }

  ghost predicate AllAtLeast(points: seq<Point>, v: seq<nat>, lo: nat, hi: nat, f: nat, x: real)
    requires lo <= hi <= |v|
  {
    forall k :: lo <= k < hi ==> x <= Coord(points, v[k], f)
  }

  ghost predicate Attained(points: seq<Point>, v: seq<nat>, lo: nat, hi: nat, f: nat, x: real)
    requires lo <= hi <= |v|
  {
    exists k :: lo <= k < hi && Coord(points, v[k], f) == x
  }

  lemma RearrangedBounds(points: seq<Point>, a: seq<nat>, b: seq<nat>, lo: nat, hi: nat, f: nat, x: real)
    requires Rearranged(a, b, lo, hi)
    ensures AllAtMost(points, a, lo, hi, f, x) ==> AllAtMost(points, b, lo, hi, f, x)
    ensures AllAtLeast(points, a, lo, hi, f, x) ==> AllAtLeast(points, b, lo, hi, f, x)
  {
    forall k | lo <= k < hi
      ensures AllAtMost(points, a, lo, hi, f, x) ==> Coord(points, b[k], f) <= x
      ensures AllAtLeast(points, a, lo, hi, f, x) ==> x <= Coord(points, b[k], f)
    {
      var j := RearrangedMember(a, b, lo, hi, k);
    }
  }

  /** The smallest box around the points of a non-empty range. */
  ghost predicate TightBox(points: seq<Point>, dim: nat, v: seq<nat>, lo: nat, hi: nat, bbox: seq<Interval>)
    requires lo <= hi <= |v|
  {
    |bbox| == dim && forall f :: 0 <= f < dim ==> TightInterval(points, v, lo, hi, f, bbox[f])
  }

  ghost predicate TightInterval(points: seq<Point>, v: seq<nat>, lo: nat, hi: nat, f: nat, iv: Interval)
    requires lo <= hi <= |v|
  {
    && AllAtLeast(points, v, lo, hi, f, iv.low) && Attained(points, v, lo, hi, f, iv.low)
    && AllAtMost(points, v, lo, hi, f, iv.high) && Attained(points, v, lo, hi, f, iv.high)
  }

  /** The smallest and the largest coordinate f in a non-empty range. */
  function MinCoord(points: seq<Point>, v: seq<nat>, lo: nat, hi: nat, f: nat): real
    requires lo < hi <= |v|
    decreases hi
  {
    var x := Coord(points, v[hi - 1], f);
    if hi == lo + 1 then x else
    var m := MinCoord(points, v, lo, hi - 1, f);
    if x < m then x else m
  }

  function MaxCoord(points: seq<Point>, v: seq<nat>, lo: nat, hi: nat, f: nat): real
    requires lo < hi <= |v|
    decreases hi
  {
    var x := Coord(points, v[hi - 1], f);
    if hi == lo + 1 then x else
    var m := MaxCoord(points, v, lo, hi - 1, f);
    if x > m then x else m
  }

  lemma {:induction false} MinMaxTight(points: seq<Point>, v: seq<nat>, lo: nat, hi: nat, f: nat)
    requires lo < hi <= |v|
    ensures TightInterval(points, v, lo, hi, f,
                          Interval(MinCoord(points, v, lo, hi, f), MaxCoord(points, v, lo, hi, f)))
    decreases hi
  {
    if hi == lo + 1 {
      assert Coord(points, v[lo], f) == MinCoord(points, v, lo, hi, f) == MaxCoord(points, v, lo, hi, f);
    } else {
      MinMaxTight(points, v, lo, hi - 1, f);
      ExtendTight(points, v, lo, hi - 1, f,
                  Interval(MinCoord(points, v, lo, hi - 1, f), MaxCoord(points, v, lo, hi - 1, f)));
    }
  }

  /** Adding one entry to a range moves its tight interval just far enough. */
  lemma ExtendTight(points: seq<Point>, v: seq<nat>, lo: nat, k: nat, f: nat, iv: Interval)
    requires lo <= k < |v| && TightInterval(points, v, lo, k, f, iv)
    ensures var x := Coord(points, v[k], f);
      TightInterval(points, v, lo, k + 1, f,
                    Interval(if x < iv.low then x else iv.low, if x > iv.high then x else iv.high))
  {
    var x := Coord(points, v[k], f);
    assert Attained(points, v, lo, k + 1, f, x);
    ExtendAttained(points, v, lo, k, f, iv.low);
    ExtendAttained(points, v, lo, k, f, iv.high);
  }

  lemma ExtendAttained(points: seq<Point>, v: seq<nat>, lo: nat, k: nat, f: nat, x: real)
    requires lo <= k < |v| && Attained(points, v, lo, k, f, x)
    ensures Attained(points, v, lo, k + 1, f, x)
  {
    var j :| lo <= j < k && Coord(points, v[j], f) == x;
  }

  // ---------- the tree

  function First(node: Node): nat {
    match node
    case Leaf(left, _) => left
    case Inner(_, _, _, c1, _) => First(c1)
  }

  function Last(node: Node): nat {
    match node
    case Leaf(_, right) => right
    case Inner(_, _, _, _, c2) => Last(c2)
  }

  /** The leaves tile [First, Last) with non-empty ranges of at most leafMax entries, larger ranges
      are divided, and every inner node separates its two sides on its coordinate by divlow <= divhigh. */
  ghost predicate TreeOk(points: seq<Point>, dim: nat, leafMax: nat, v: seq<nat>, node: Node)
    ensures TreeOk(points, dim, leafMax, v, node) ==> First(node) < Last(node) <= |v|
  {
    match node
    case Leaf(left, right) => left < right <= |v| && right - left <= leafMax
    case Inner(f, low, high, c1, c2) =>
      && TreeOk(points, dim, leafMax, v, c1) && TreeOk(points, dim, leafMax, v, c2)
      && Last(c1) == First(c2) && leafMax < Last(c2) - First(c1)
      && f < dim && low <= high
      && AllAtMost(points, v, First(c1), Last(c1), f, low)
      && AllAtLeast(points, v, First(c2), Last(c2), f, high)
      && Attained(points, v, First(c1), Last(c1), f, low) && Attained(points, v, First(c2), Last(c2), f, high)
  }

  /** A tree depends only on the entries of its own range. */
  lemma {:induction false} TreeOkFrame(points: seq<Point>, dim: nat, leafMax: nat, a: seq<nat>, b: seq<nat>, node: Node)
    requires TreeOk(points, dim, leafMax, a, node)
    requires |a| == |b| && forall k :: First(node) <= k < Last(node) ==> a[k] == b[k]
    ensures TreeOk(points, dim, leafMax, b, node)
  {
    if node.Leaf? {
    } else {
      TreeOkFrame(points, dim, leafMax, a, b, node.child1);
      TreeOkFrame(points, dim, leafMax, a, b, node.child2);
    }
  }
}
