/** The L1 and L2 metrics of the KD-tree index, over exact real coordinates. */
module Metric {

  type Point = seq<real>

  datatype Kind = L1 | L2

  function Abs(x: real): real {
    if x < 0.0 then -x else x
  }

  /** What one coordinate adds to a distance: |a-b| for L1, (a-b)^2 for L2. */
  function Accum(m: Kind, a: real, b: real): (r: real)
    ensures 0.0 <= r
  {
    match m
    case L1 => Abs(a - b)
    case L2 => (a - b) * (a - b)
  }

  /** The contributions of the first n coordinates. */
  function DistUpTo(m: Kind, q: Point, p: Point, n: nat): (r: real)
    requires n <= |q| && n <= |p|
    ensures 0.0 <= r
  {
    if n == 0 then 0.0 else DistUpTo(m, q, p, n - 1) + Accum(m, q[n - 1], p[n - 1])
  }

  function Dist(m: Kind, q: Point, p: Point): (r: real)
    requires |q| == |p|
    ensures 0.0 <= r
  {
    DistUpTo(m, q, p, |q|)
  }

  lemma DistUpToMonotone(m: Kind, q: Point, p: Point, i: nat, n: nat)
    requires i <= n <= |q| && n <= |p|
    ensures DistUpTo(m, q, p, i) <= DistUpTo(m, q, p, n)
  {
  }

  /** Distance as the adaptors compute it: four coordinates per turn, with an early exit
      once a positive `worst` is exceeded; the remaining 0 to 3 coordinates come last. */
  method Distance(m: Kind, q: Point, p: Point, worst: real) returns (r: real)
    requires |q| == |p|
    ensures r <= Dist(m, q, p)
    ensures r != Dist(m, q, p) ==> 0.0 < worst < r
  {
    r := 0.0;
    var d := 0;
    while d < |q| - 3
      invariant d <= |q| && r == DistUpTo(m, q, p, d)
    {
      var r0 := Accum(m, q[d], p[d]);
      var r1 := Accum(m, q[d + 1], p[d + 1]);
      var r2 := Accum(m, q[d + 2], p[d + 2]);
      var r3 := Accum(m, q[d + 3], p[d + 3]);
      FourMore(m, q, p, d);
      r := r + (r0 + r1 + r2 + r3);
      d := d + 4;
      if worst > 0.0 && r > worst {
        DistUpToMonotone(m, q, p, d, |q|);
        return;
      }
    }
    while d < |q|
      invariant d <= |q| && r == DistUpTo(m, q, p, d)
    {
      r := r + Accum(m, q[d], p[d]);
      d := d + 1;
    }
  }

  lemma FourMore(m: Kind, q: Point, p: Point, d: nat)
    requires d + 4 <= |q| == |p|
    ensures DistUpTo(m, q, p, d + 4) == DistUpTo(m, q, p, d) +
      (Accum(m, q[d], p[d]) + Accum(m, q[d + 1], p[d + 1]) +
       Accum(m, q[d + 2], p[d + 2]) + Accum(m, q[d + 3], p[d + 3]))
  {
    assert DistUpTo(m, q, p, d + 2) == DistUpTo(m, q, p, d) + Accum(m, q[d], p[d]) + Accum(m, q[d + 1], p[d + 1]);
  }

  // ---------- what the two metrics are

  function Dot(q: Point, p: Point, n: nat): real
    requires n <= |q| && n <= |p|
  {
    if n == 0 then 0.0 else Dot(q, p, n - 1) + q[n - 1] * p[n - 1]
  }

  lemma SquareOfDifference(a: real, b: real)
    ensures Accum(L2, a, b) == a * a - 2.0 * (a * b) + b * b
  {
    assert (a - b) * (a - b) == a * a - 2.0 * (a * b) + b * b;
  }

  lemma {:induction false} SquaredUpTo(q: Point, p: Point, n: nat)
    requires n <= |q| == |p|
    ensures DistUpTo(L2, q, p, n) == Dot(q, q, n) - 2.0 * Dot(q, p, n) + Dot(p, p, n)
  {
    if n == 0 {
    } else {
      SquaredUpTo(q, p, n - 1);
      SquareOfDifference(q[n - 1], p[n - 1]);
    }
  }

  /** L2 is the squared Euclidean distance. */
  lemma SquaredEuclidean(q: Point, p: Point)
    requires |q| == |p|
    ensures Dist(L2, q, p) == Dot(q, q, |q|) - 2.0 * Dot(q, p, |q|) + Dot(p, p, |p|)
  {
    SquaredUpTo(q, p, |q|);
  }

  /** p lies in the box that q and r span. */
  ghost predicate Between(q: Point, p: Point, r: Point) {
    |q| == |p| == |r| && forall i :: 0 <= i < |q| ==> q[i] <= p[i] <= r[i] || r[i] <= p[i] <= q[i]
  }

  lemma {:induction false} BetweenUpTo(q: Point, p: Point, r: Point, n: nat)
    requires Between(q, p, r) && n <= |q|
    ensures DistUpTo(L1, q, r, n) == DistUpTo(L1, q, p, n) + DistUpTo(L1, p, r, n)
    ensures DistUpTo(L1, q, p, n) == DistUpTo(L1, p, q, n)
  {
    if n == 0 {
    } else {
      BetweenUpTo(q, p, r, n - 1);
    }
  }

  lemma {:induction false} OneApart(q: Point, f: nat, x: real, n: nat)
    requires f < |q| && n <= |q|
    ensures DistUpTo(L1, q, q[f := q[f] + x], n) == if f < n then Abs(x) else 0.0
    ensures DistUpTo(L2, q, q[f := q[f] + x], n) == if f < n then x * x else 0.0
  {
    if n == 0 {
    } else {
      OneApart(q, f, x, n - 1);
      SquareOfDifference(q[n - 1], q[f := q[f] + x][n - 1]);
    }
  }

  /** L1 is the Manhattan distance: it adds up along every path that turns back in no coordinate, is
      symmetric, and is the length of every step in one coordinate. */
  lemma Manhattan(q: Point, p: Point, r: Point, f: nat, x: real)
    requires Between(q, p, r) && f < |q| && 0.0 <= x
    ensures Dist(L1, q, r) == Dist(L1, q, p) + Dist(L1, p, r)
    ensures Dist(L1, q, p) == Dist(L1, p, q)
    ensures Dist(L1, q, q[f := q[f] + x]) == x
  {
    BetweenUpTo(q, p, r, |q|);
    OneApart(q, f, x, |q|);
  }

  /** The two metrics order points differently: from the origin, (3, 0, 0) is nearer than (2, 2, 0) for
      L1 and farther for L2. */
  lemma MetricsDiffer()
    ensures Dist(L1, [0.0, 0.0, 0.0], [3.0, 0.0, 0.0]) == 3.0 && Dist(L1, [0.0, 0.0, 0.0], [2.0, 2.0, 0.0]) == 4.0
    ensures Dist(L2, [0.0, 0.0, 0.0], [3.0, 0.0, 0.0]) == 9.0 && Dist(L2, [0.0, 0.0, 0.0], [2.0, 2.0, 0.0]) == 8.0
  {
    var o, p, r := [0.0, 0.0, 0.0], [3.0, 0.0, 0.0], [2.0, 2.0, 0.0];
    forall m: Kind, x: Point | |x| == 3
      ensures Dist(m, o, x) == Accum(m, 0.0, x[0]) + Accum(m, 0.0, x[1]) + Accum(m, 0.0, x[2])
    {
      assert DistUpTo(m, o, x, 1) == Accum(m, 0.0, x[0]);
      assert DistUpTo(m, o, x, 2) == DistUpTo(m, o, x, 1) + Accum(m, 0.0, x[1]);
    }
    assert Dist(L1, o, p) == 3.0 && Dist(L1, o, r) == 4.0;
    assert Dist(L2, o, p) == 9.0 && Dist(L2, o, r) == 8.0;
  }

  // ---------- bounds

  /** A coordinate that lies beyond b, seen from q, contributes at least what b does. */
  lemma AccumMonotone(m: Kind, q: real, b: real, x: real)
    requires q <= b <= x || x <= b <= q
    ensures Accum(m, q, b) <= Accum(m, q, x)
  {
    if q <= b <= x {
      SquareMonotone(b - q, x - q);
    } else {
      SquareMonotone(q - b, q - x);
    }
  }

  lemma SquareMonotone(u: real, v: real)
    requires 0.0 <= u <= v
    ensures u * u <= v * v
  {
    assert u * u <= u * v <= v * v;
  }

  function Sum(s: seq<real>): real {
    if s == [] then 0.0 else Sum(s[..|s| - 1]) + s[|s| - 1]
  }

  lemma {:induction false} SumUpdate(s: seq<real>, i: nat, x: real)
    requires i < |s|
    ensures Sum(s[i := x]) == Sum(s) + x - s[i]
  {
    var t := s[i := x];
    if i == |s| - 1 {
      assert t[..|t| - 1] == s[..|s| - 1];
    } else {
      SumUpdate(s[..|s| - 1], i, x);
      assert t[..|t| - 1] == s[..|s| - 1][i := x];
    }
  }

  /** Every entry bounds the contribution of its coordinate from below. */
  ghost predicate BoundsBelow(m: Kind, lb: seq<real>, q: Point, p: Point) {
    |lb| == |q| == |p| && forall i :: 0 <= i < |lb| ==> lb[i] <= Accum(m, q[i], p[i])
  }

  lemma SumBoundsDist(m: Kind, lb: seq<real>, q: Point, p: Point)
    requires BoundsBelow(m, lb, q, p)
    ensures Sum(lb) <= Dist(m, q, p)
  {
    SumBoundsDistUpTo(m, lb, q, p, |lb|);
    assert lb[..|lb|] == lb;
  }

  lemma {:induction false} SumBoundsDistUpTo(m: Kind, lb: seq<real>, q: Point, p: Point, n: nat)
    requires BoundsBelow(m, lb, q, p) && n <= |lb|
    ensures Sum(lb[..n]) <= DistUpTo(m, q, p, n)
  {
    if n == 0 {
    } else {
      SumBoundsDistUpTo(m, lb, q, p, n - 1);
      assert lb[..n][..n - 1] == lb[..n - 1];
    }
  }
}
