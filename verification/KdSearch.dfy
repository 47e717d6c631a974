/** Branch-and-bound search: what one call of searchLevel settles, and how the calls add up. */
module KdSearch {
  import opened Metric
  import opened ResultSets
  import opened KdSpec

  /** One search: the data, the query, the error factor 1 + eps, and the kind of result set. */
  datatype Query = Query(points: seq<Point>, metric: Kind, q: Point, err: real, mode: Mode)

  ghost predicate QueryOk(c: Query) {
    && (forall i :: 0 <= i < |c.points| ==> |c.points[i]| == |c.q|)
    && 1.0 <= c.err
    && (c.mode.Nearest? ==> c.mode.k > 0)
  }

  /** The true distance of point i from the query. */
  ghost function D(c: Query, i: nat): (d: real)
    ensures 0.0 <= d
  {
    if i < |c.points| && |c.points[i]| == |c.q| then Dist(c.metric, c.q, c.points[i]) else 0.0
  }

  /** A distance blown up by the error factor. */
  function Scaled(d: real, err: real): real {
    d * err
  }

  // ---------- the offers made so far

  ghost function Offered(offers: seq<Hit>): set<nat> {
    set h | h in offers :: h.index
  }

  /** Every point is offered at most once, with its true distance. */
  ghost predicate OffersOk(c: Query, offers: seq<Hit>) {
    && (forall i :: 0 <= i < |offers| ==> offers[i].index < |c.points| && offers[i].dist == D(c, offers[i].index))
    && (forall i, j :: 0 <= i < j < |offers| ==> offers[i].index != offers[j].index)
    && Admissible(c.mode, offers)
  }

  /** A point is settled once it has been offered or is provably too far to matter. */
  ghost predicate Settled(c: Query, offers: seq<Hit>, i: nat)
    requires QueryOk(c)
  {
    i in Offered(offers) || Worst(c.mode, offers) <= Scaled(D(c, i), c.err)
  }

  ghost predicate ValidIndex(c: Query, v: seq<nat>) {
    && (forall k :: 0 <= k < |v| ==> v[k] < |c.points|)
    && (forall j, k :: 0 <= j < k < |v| ==> v[j] != v[k])
  }

  /** From `before` to `after` the search has dealt with the entries [lo, hi) of v and no others. */
  ghost predicate Progress(c: Query, v: seq<nat>, lo: nat, hi: nat, before: seq<Hit>, after: seq<Hit>)
    requires QueryOk(c) && lo <= hi <= |v|
  {
    && before <= after && OffersOk(c, after)
    && Offered(after) <= Offered(before) + IndexSet(v, lo, hi)
    && forall k :: lo <= k < hi ==> Settled(c, after, v[k])
  }

  ghost predicate Untouched(offers: seq<Hit>, v: seq<nat>, lo: nat, hi: nat)
    requires lo <= hi <= |v|
  {
    forall k :: lo <= k < hi ==> v[k] !in Offered(offers)
  }

  lemma {:induction false} WorstShrinks(mode: Mode, a: seq<Hit>, b: seq<Hit>)
    requires a <= b && Admissible(mode, b)
    ensures Worst(mode, b) <= Worst(mode, a)
    decreases |b|
  {
    if a == b {
    } else {
      var b', h := b[..|b| - 1], b[|b| - 1];
      assert b == b' + [h];
      WorstShrinks(mode, a, b');
      WorstMonotone(mode, b', h);
    }
  }

  /** Later offers settle nothing anew that was settled before, and undo nothing. */
  lemma SettledStays(c: Query, a: seq<Hit>, b: seq<Hit>, i: nat)
    requires QueryOk(c) && a <= b && Admissible(c.mode, b) && Settled(c, a, i)
    ensures Settled(c, b, i)
  {
    WorstShrinks(c.mode, a, b);
    if i in Offered(a) {
      var h :| h in a && h.index == i;
      assert h in b;
    }
  }

  lemma ScaledIs(d: real, err: real)
    ensures Scaled(d, err) == d * err
  {
  }

  lemma ScaledGrows(d: real, err: real)
    requires 0.0 <= d && 1.0 <= err
    ensures d <= Scaled(d, err)
  {
  }

  lemma ScaledAtLeast(x: real, d: real, err: real, w: real)
    requires x <= d && 1.0 <= err && w <= Scaled(x, err)
    ensures w <= Scaled(d, err)
  {
    assert x * err <= d * err;
  }

  // ---------- the start: how far the query lies outside a box

  function OutsideBy(metric: Kind, x: real, iv: Interval): real {
    if x < iv.low then Accum(metric, x, iv.low) else if x > iv.high then Accum(metric, x, iv.high) else 0.0
  }

  /** d is the distance of x from the interval: some place of it is that far away, and none is nearer. */
  ghost predicate DistanceTo(metric: Kind, x: real, iv: Interval, d: real) {
    && (exists p :: iv.low <= p <= iv.high && Accum(metric, x, p) == d)
    && (forall p :: iv.low <= p <= iv.high ==> d <= Accum(metric, x, p))
  }

  lemma OutsideByIsDistance(metric: Kind, x: real, iv: Interval)
    requires iv.low <= iv.high
    ensures DistanceTo(metric, x, iv, OutsideBy(metric, x, iv))
  {
    var p := if x < iv.low then iv.low else if x > iv.high then iv.high else x;
    assert Accum(metric, x, p) == OutsideBy(metric, x, iv);
    forall y | iv.low <= y <= iv.high ensures OutsideBy(metric, x, iv) <= Accum(metric, x, y) {
      OutsideByBounds(metric, x, iv, y);
    }
  }

  lemma OutsideByBounds(metric: Kind, x: real, iv: Interval, p: real)
    requires iv.low <= p <= iv.high
    ensures OutsideBy(metric, x, iv) <= Accum(metric, x, p)
  {
    if x < iv.low {
      AccumMonotone(metric, x, iv.low, p);
    } else if x > iv.high {
      AccumMonotone(metric, x, iv.high, p);
    }
  }

  lemma {:induction false} SumZero(n: nat)
    ensures Sum(seq(n, _ => 0.0)) == 0.0
  {
    if n == 0 {
    } else {
      SumZero(n - 1);
      assert seq(n, _ => 0.0)[..n - 1] == seq(n - 1, _ => 0.0);
    }
  }

  // ---------- one leaf entry

  lemma OfferedAppend(offers: seq<Hit>, h: Hit)
    ensures Offered(offers + [h]) == Offered(offers) + {h.index}
  {
    assert forall x :: x in offers + [h] <==> x in offers || x == h;
  }

  lemma LeafOffer(c: Query, v: seq<nat>, lo: nat, k: nat, before: seq<Hit>, now: seq<Hit>)
    requires QueryOk(c) && ValidIndex(c, v) && lo <= k < |v|
    requires Progress(c, v, lo, k, before, now) && v[k] !in Offered(before)
    requires D(c, v[k]) < Worst(c.mode, before) && Admissible(c.mode, before)
    ensures Progress(c, v, lo, k + 1, before, now + [Hit(D(c, v[k]), v[k])])
  {
    var h := Hit(D(c, v[k]), v[k]);
    OfferedAppend(now, h);
    assert v[k] !in Offered(now);
    WorstShrinks(c.mode, [], before);
    forall i | 0 <= i < |now| ensures now[i].index != v[k] {
      assert now[i] in now;
    }
    assert OffersOk(c, now + [h]);
    forall j | lo <= j < k + 1 ensures Settled(c, now + [h], v[j]) {
      if j < k {
        SettledStays(c, now, now + [h], v[j]);
      }
    }
  }

  lemma LeafSkip(c: Query, v: seq<nat>, lo: nat, k: nat, before: seq<Hit>, now: seq<Hit>)
    requires QueryOk(c) && lo <= k < |v|
    requires Progress(c, v, lo, k, before, now)
    requires Worst(c.mode, before) <= D(c, v[k])
    ensures Progress(c, v, lo, k + 1, before, now)
  {
    WorstShrinks(c.mode, before, now);
    ScaledGrows(D(c, v[k]), c.err);
  }

  // ---------- pruning and joining

  /** dists bounds every point of the range from below, coordinate by coordinate. */
  ghost predicate RangeBound(c: Query, lb: seq<real>, v: seq<nat>, lo: nat, hi: nat)
    requires lo <= hi <= |v|
  {
    forall k :: lo <= k < hi ==> v[k] < |c.points| && BoundsBelow(c.metric, lb, c.q, c.points[v[k]])
  }

  /** A whole range may be skipped once its lower bound, scaled, exceeds the worst distance. */
  lemma PruneRange(c: Query, lb: seq<real>, v: seq<nat>, lo: nat, hi: nat, now: seq<Hit>)
    requires QueryOk(c) && lo <= hi <= |v| && OffersOk(c, now)
    requires RangeBound(c, lb, v, lo, hi)
    requires Worst(c.mode, now) < Scaled(Sum(lb), c.err)
    ensures Progress(c, v, lo, hi, now, now)
  {
    forall k | lo <= k < hi ensures Settled(c, now, v[k]) {
      SumBoundsDist(c.metric, lb, c.q, c.points[v[k]]);
      ScaledAtLeast(Sum(lb), D(c, v[k]), c.err, Worst(c.mode, now));
    }
  }

  /** Past the cut, the divided coordinate alone contributes cut_dist. */
  lemma CutBound(c: Query, lb: seq<real>, v: seq<nat>, lo: nat, hi: nat, f: nat, cut: real, above: bool)
    requires QueryOk(c) && lo <= hi <= |v| && RangeBound(c, lb, v, lo, hi)
    requires f < |c.q| == |lb|
    requires above ==> c.q[f] <= cut && AllAtLeast(c.points, v, lo, hi, f, cut)
    requires !above ==> cut <= c.q[f] && AllAtMost(c.points, v, lo, hi, f, cut)
    ensures RangeBound(c, lb[f := Accum(c.metric, c.q[f], cut)], v, lo, hi)
  {
    forall k | lo <= k < hi
      ensures BoundsBelow(c.metric, lb[f := Accum(c.metric, c.q[f], cut)], c.q, c.points[v[k]])
    {
      AccumMonotone(c.metric, c.q[f], cut, c.points[v[k]][f]);
    }
  }

  lemma ProgressJoin(c: Query, v: seq<nat>, lo: nat, mid: nat, hi: nat, first: bool,
                     o0: seq<Hit>, o1: seq<Hit>, o2: seq<Hit>)
    requires QueryOk(c) && lo <= mid <= hi <= |v|
    requires if first then Progress(c, v, lo, mid, o0, o1) && Progress(c, v, mid, hi, o1, o2)
                      else Progress(c, v, mid, hi, o0, o1) && Progress(c, v, lo, mid, o1, o2)
    ensures Progress(c, v, lo, hi, o0, o2)
  {
    assert IndexSet(v, lo, hi) == IndexSet(v, lo, mid) + IndexSet(v, mid, hi);
    forall k | lo <= k < hi ensures Settled(c, o2, v[k]) {
      if first == (k < mid) {
        SettledStays(c, o1, o2, v[k]);
      }
    }
  }

  /** Entries of the other half are still untouched after a call on one half. */
  lemma UntouchedOther(c: Query, v: seq<nat>, lo: nat, hi: nat, lo': nat, hi': nat, o0: seq<Hit>, o1: seq<Hit>)
    requires QueryOk(c) && ValidIndex(c, v) && lo <= hi <= |v| && lo' <= hi' <= |v| && (hi <= lo' || hi' <= lo)
    requires Progress(c, v, lo, hi, o0, o1) && Untouched(o0, v, lo', hi')
    ensures Untouched(o1, v, lo', hi')
  {
    forall k | lo' <= k < hi' ensures v[k] !in Offered(o1) {
      assert v[k] !in IndexSet(v, lo, hi);
    }
  }

  /** What a call of searchLevel starts from: the lower bounds fit the node, and none of the
      node's points has been offered yet. */
  ghost predicate Ready(c: Query, leafMax: nat, v: seq<nat>, node: Node, lb: seq<real>, mindistsq: real,
                        offers: seq<Hit>)
  {
    && QueryOk(c) && ValidIndex(c, v) && OffersOk(c, offers)
    && TreeOk(c.points, |c.q|, leafMax, v, node)
    && Untouched(offers, v, First(node), Last(node))
    && |lb| == |c.q| && mindistsq == Sum(lb) && RangeBound(c, lb, v, First(node), Last(node))
  }

  lemma ReadyBelow(c: Query, leafMax: nat, v: seq<nat>, node: Node, lb: seq<real>, mindistsq: real, offers: seq<Hit>)
    requires node.Inner? && Ready(c, leafMax, v, node, lb, mindistsq, offers)
    ensures Ready(c, leafMax, v, node.child1, lb, mindistsq, offers)
    ensures Ready(c, leafMax, v, node.child2, lb, mindistsq, offers)
  {
  }

  /** On the far side of the cut, once the near side has been searched. */
  lemma ReadyOther(c: Query, leafMax: nat, v: seq<nat>, node: Node, lower: bool, lb: seq<real>,
                   mindistsq: real, o0: seq<Hit>, o1: seq<Hit>)
    requires node.Inner? && Ready(c, leafMax, v, node, lb, mindistsq, o0)
    requires lower <==> c.q[node.divfeat] - node.divlow + (c.q[node.divfeat] - node.divhigh) < 0.0
    requires var best := if lower then node.child1 else node.child2;
      Progress(c, v, First(best), Last(best), o0, o1)
    ensures var other := if lower then node.child2 else node.child1;
      var cutDist := Accum(c.metric, c.q[node.divfeat], if lower then node.divhigh else node.divlow);
      Ready(c, leafMax, v, other, lb[node.divfeat := cutDist], mindistsq + cutDist - lb[node.divfeat], o1)
  {
    var best := if lower then node.child1 else node.child2;
    var other := if lower then node.child2 else node.child1;
    var cut := if lower then node.divhigh else node.divlow;
    UntouchedOther(c, v, First(best), Last(best), First(other), Last(other), o0, o1);
    CutBound(c, lb, v, First(other), Last(other), node.divfeat, cut, lower);
    SumUpdate(lb, node.divfeat, Accum(c.metric, c.q[node.divfeat], cut));
  }

  lemma PruneNode(c: Query, leafMax: nat, v: seq<nat>, node: Node, lb: seq<real>, mindistsq: real, offers: seq<Hit>)
    requires Ready(c, leafMax, v, node, lb, mindistsq, offers)
    requires Worst(c.mode, offers) < Scaled(mindistsq, c.err)
    ensures Progress(c, v, First(node), Last(node), offers, offers)
  {
    PruneRange(c, lb, v, First(node), Last(node), offers);
  }
}
