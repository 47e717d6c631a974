/** The KD-tree index: building it, and searching it with either result set. */
module KdTree {
  import opened Metric
  import opened ResultSets
  import opened KdSpec
  import opened KdBuild
  import opened KdSearch
  import opened KdResults
  import opened Permutations

  datatype Root = NoTree | Tree(node: Node)

  /** findNeighbors throws before the index is built, unless there is no data at all. */
  datatype Outcome<T> = Done(value: T) | NotBuilt

  function Identity(n: nat): (s: seq<nat>)
    ensures |s| == n && forall i :: 0 <= i < n ==> s[i] == i
  {
    seq(n, i => i)
  }

  lemma PermutationOfIdentity(v: seq<nat>, n: nat)
    requires multiset(v) == multiset(Identity(n))
    ensures Permutation(v, n)
  {
    var id := Identity(n);
    assert |v| == |multiset(v)| == |multiset(id)| == n;
    IdentityOnce(n);
    forall k | 0 <= k < n ensures v[k] < n {
      assert v[k] in multiset(v);
      assert v[k] in id;
    }
    forall i | 0 <= i < n ensures i in v {
      assert id[i] in multiset(id);
      assert i in multiset(v);
    }
    forall j, k | 0 <= j < k < n ensures v[j] != v[k] {
      TwiceCounted(v, j, k);
    }
  }

  lemma TwiceCounted(v: seq<nat>, j: nat, k: nat)
    requires j < k < |v|
    ensures v[j] == v[k] ==> multiset(v)[v[j]] >= 2
  {
    assert v == v[..j] + [v[j]] + v[j + 1..k] + [v[k]] + v[k + 1..];
  }

  lemma {:induction false} IdentityOnce(n: nat)
    ensures forall x :: multiset(Identity(n))[x] <= 1
  {
    if n == 0 {
    } else {
      IdentityOnce(n - 1);
      assert Identity(n) == Identity(n - 1) + [n - 1];
      forall x ensures multiset(Identity(n))[x] <= 1 {
        if x == n - 1 {
          assert x !in Identity(n - 1);
          assert x !in multiset(Identity(n - 1));
        }
      }
    }
  }

  lemma BoxBoundsPoint(points: seq<Point>, dim: nat, metric: Kind, v: seq<nat>, box: seq<Interval>,
                       vec: Point, lb: seq<real>, k: nat)
    requires DataOk(points, dim) && Permutation(v, |points|) && k < |points| && |vec| == dim == |lb|
    requires TightBox(points, dim, v, 0, |points|, box)
    requires forall i :: 0 <= i < dim ==> lb[i] == OutsideBy(metric, vec[i], box[i])
    ensures BoundsBelow(metric, lb, vec, points[v[k]])
  {
    forall i | 0 <= i < dim ensures lb[i] <= Accum(metric, vec[i], points[v[k]][i]) {
      assert TightInterval(points, v, 0, |points|, i, box[i]);
      OutsideByBounds(metric, vec[i], box[i], points[v[k]][i]);
    }
  }

  class KDTree {
    const points: seq<Point>
    const dim: nat
    const leafMax: nat
    const metric: Kind
    const maxDist: real
    var vind: array<nat>
    var root: Root
    var rootBbox: seq<Interval>

    ghost predicate Valid()
      reads this, vind
    {
      && DataOk(points, dim) && 1 <= leafMax
      && Permutation(vind[..], |points|)
      && (root.Tree? ==> Divided(points, dim, leafMax, vind[..], 0, |points|, root.node, rootBbox))
    }

    constructor (points: seq<Point>, dim: nat, leafMax: nat, metric: Kind, maxDist: real)
      requires DataOk(points, dim) && 1 <= leafMax
      ensures Valid() && fresh(vind) && root == NoTree
      ensures this.points == points && this.metric == metric && this.dim == dim && this.maxDist == maxDist
      ensures this.leafMax == leafMax
    {
      this.points, this.dim, this.leafMax := points, dim, leafMax;
      this.metric, this.maxDist := metric, maxDist;
      root, rootBbox := NoTree, [];
      vind := new nat[|points|](i => i);
      new;
      assert vind[..] == Identity(|points|);
      PermutationOfIdentity(vind[..], |points|);
    }

    /** Sorts nothing, only regroups: the index vector stays a permutation, the tree matches it. */
    method BuildIndex()
      requires Valid()
      modifies this, vind
      ensures Valid() && vind == old(vind)
      ensures root.Tree? <==> points != []
    {
      for i := 0 to |points|
        modifies vind
        invariant forall j :: 0 <= j < i ==> vind[j] == j
      {
        vind[i] := i;
      }
      assert vind[..] == Identity(|points|);
      root := NoTree;
      if |points| == 0 {
        return;
      }
      var guess := RangeBox(points, dim, vind[..], 0, |points|);
      var node, box := DivideTree(points, dim, leafMax, vind, 0, |points|, guess);
      PermutationOfIdentity(vind[..], |points|);
      root, rootBbox := Tree(node), box;
    }

    /** computeInitialDistances: how far the query lies outside the root box, per coordinate. */
    method ComputeInitialDistances(vec: Point, dists: array<real>) returns (distsq: real)
      requires Valid() && root.Tree?
      requires |vec| == dim == dists.Length
      requires dists[..] == seq(dim, _ => 0.0)
      modifies dists
      ensures distsq == Sum(dists[..])
      ensures forall j :: 0 <= j < dim ==> DistanceTo(metric, vec[j], rootBbox[j], dists[j])
      ensures forall k :: 0 <= k < |points| ==> BoundsBelow(metric, dists[..], vec, points[vind[k]])
    {
      hide DistanceTo, Accum, Sum, BoundsBelow, TreeOk;
      distsq := 0.0;
      SumZero(dim);
      for i := 0 to dim
        invariant forall j :: i <= j < dim ==> dists[j] == 0.0
        invariant distsq == Sum(dists[..])
        invariant forall j :: 0 <= j < i ==> dists[j] == OutsideBy(metric, vec[j], rootBbox[j])
        invariant forall j :: 0 <= j < i ==> DistanceTo(metric, vec[j], rootBbox[j], dists[j])
      {
        ghost var before := dists[..];
        assert rootBbox[i].low <= rootBbox[i].high by {
          assert TightInterval(points, vind[..], 0, |points|, i, rootBbox[i]);
          assert Coord(points, vind[..][0], i) <= rootBbox[i].high;
        }
        if vec[i] < rootBbox[i].low {
          dists[i] := Accum(metric, vec[i], rootBbox[i].low);
          distsq := distsq + dists[i];
        }
        if vec[i] > rootBbox[i].high {
          dists[i] := Accum(metric, vec[i], rootBbox[i].high);
          distsq := distsq + dists[i];
        }
        OutsideByIsDistance(metric, vec[i], rootBbox[i]);
        assert dists[..] == before[i := dists[i]];
        SumUpdate(before, i, dists[i]);
      }
      forall k | 0 <= k < |points| ensures BoundsBelow(metric, dists[..], vec, points[vind[k]]) {
        BoxBoundsPoint(points, dim, metric, vind[..], rootBbox, vec, dists[..], k);
      }
    }

    /** The leaf case of searchLevel: the worst distance is read once, before the loop. */
    method ScanLeaf(rs: ResultSet, vec: Point, left: nat, right: nat, epsError: real)
      requires Valid() && rs.Valid() && {this, vind} !! rs.Repr()
      requires |vec| == dim && QueryOk(Query(points, metric, vec, epsError, rs.Mode()))
      requires OffersOk(Query(points, metric, vec, epsError, rs.Mode()), rs.Offers())
      requires left <= right <= |points| && Untouched(rs.Offers(), vind[..], left, right)
      modifies rs.Repr()
      ensures rs.Valid()
      ensures Progress(Query(points, metric, vec, epsError, rs.Mode()), vind[..], left, right,
                       old(rs.Offers()), rs.Offers())
    {
      hide Worst, KBest;
      ghost var c := Query(points, metric, vec, epsError, rs.Mode());
      ghost var v, o0 := vind[..], rs.Offers();
      var worst := rs.WorstDist();
      for i := left to right
        invariant rs.Valid()
        invariant Progress(c, v, left, i, o0, rs.Offers())
      {
        var dist := Distance(metric, vec, points[vind[i]], -1.0);
        if dist < worst {
          LeafOffer(c, v, left, i, o0, rs.Offers());
          rs.AddPoint(dist, vind[i]);
        } else {
          LeafSkip(c, v, left, i, o0, rs.Offers());
        }
      }
    }

    /** searchLevel: settles every point under the node and puts dists back as it was. */
    method SearchLevel(rs: ResultSet, vec: Point, node: Node, mindistsq: real, dists: array<real>, epsError: real)
      requires Valid() && rs.Valid() && {this, vind, dists} !! rs.Repr() && dists.Length == dim
      requires Ready(Query(points, metric, vec, epsError, rs.Mode()), leafMax, vind[..], node,
                     dists[..], mindistsq, rs.Offers())
      modifies rs.Repr(), dists
      ensures rs.Valid() && dists[..] == old(dists[..])
      ensures Progress(Query(points, metric, vec, epsError, rs.Mode()), vind[..], First(node), Last(node),
                       old(rs.Offers()), rs.Offers())
      decreases node, 1
    {
      if node.Leaf? {
        ScanLeaf(rs, vec, node.left, node.right, epsError);
        return;
      }
      ghost var c := Query(points, metric, vec, epsError, rs.Mode());
      ghost var v, o0 := vind[..], rs.Offers();
      var val := vec[node.divfeat];
      var diff1, diff2 := val - node.divlow, val - node.divhigh;
      var lower := diff1 + diff2 < 0.0;
      ReadyBelow(c, leafMax, v, node, dists[..], mindistsq, o0);
      SearchLevel(rs, vec, if lower then node.child1 else node.child2, mindistsq, dists, epsError);
      SearchFarSide(rs, vec, node, lower, mindistsq, dists, epsError, o0);
    }

    /** The second half of searchLevel: moves the bound of the divided coordinate to the cut, visits
        the far child unless it is pruned, and restores the bound. */
    method SearchFarSide(rs: ResultSet, vec: Point, node: Node, lower: bool, mindistsq: real, dists: array<real>,
                         epsError: real,
                         ghost o0: seq<Hit>)
      requires Valid() && rs.Valid() && {this, vind, dists} !! rs.Repr() && dists.Length == dim && node.Inner?
      requires Ready(Query(points, metric, vec, epsError, rs.Mode()), leafMax, vind[..], node,
                     dists[..], mindistsq, o0)
      requires lower <==> vec[node.divfeat] - node.divlow + (vec[node.divfeat] - node.divhigh) < 0.0
      requires var best := if lower then node.child1 else node.child2;
        Progress(Query(points, metric, vec, epsError, rs.Mode()), vind[..], First(best), Last(best), o0, rs.Offers())
      modifies rs.Repr(), dists
      ensures rs.Valid() && dists[..] == old(dists[..])
      ensures Progress(Query(points, metric, vec, epsError, rs.Mode()), vind[..], First(node), Last(node),
                       o0, rs.Offers())
      decreases node, 0
    {
      hide Sum, Worst, Scaled, Accum, RangeBound, Untouched, OffersOk, Attained, AllAtMost, AllAtLeast;
      ghost var c := Query(points, metric, vec, epsError, rs.Mode());
      ghost var v, o1, d0 := vind[..], rs.Offers(), dists[..];
      ReadyOther(c, leafMax, v, node, lower, d0, mindistsq, o0, o1);
      var idx := node.divfeat;
      var other := if lower then node.child2 else node.child1;
      var cutDist := Accum(metric, vec[idx], if lower then node.divhigh else node.divlow);
      var dst := dists[idx];
      var mindistsq' := mindistsq + cutDist - dst;
      dists[idx] := cutDist;
      assert dists[..] == d0[idx := cutDist];
      var worst := rs.WorstDist();
      if Scaled(mindistsq', epsError) <= worst {
        SearchLevel(rs, vec, other, mindistsq', dists, epsError);
      } else {
        PruneNode(c, leafMax, v, other, dists[..], mindistsq', o1);
      }
      dists[idx] := dst;
      assert dists[..] == d0;
      ProgressJoin(c, v, First(node.child1), Last(node.child1), Last(node.child2), lower, o0, o1, rs.Offers());
    }

    /** The state before the first call of searchLevel. */
    lemma StartReady(c: Query, v: seq<nat>, node: Node, box: seq<Interval>, lb: seq<real>, distsq: real)
      requires QueryOk(c) && Permutation(v, |c.points|) && Admissible(c.mode, [])
      requires Divided(c.points, |c.q|, leafMax, v, 0, |c.points|, node, box)
      requires distsq == Sum(lb) && |lb| == |c.q|
      requires forall k :: 0 <= k < |c.points| ==> BoundsBelow(c.metric, lb, c.q, c.points[v[k]])
      ensures Ready(c, leafMax, v, node, lb, distsq, [])
    {
      assert Offered([]) == {};
    }

    lemma DoneSettles(c: Query, v: seq<nat>, offers: seq<Hit>)
      requires QueryOk(c) && Permutation(v, |c.points|) && Progress(c, v, 0, |c.points|, [], offers)
      ensures AllSettled(c, offers)
    {
      forall i | 0 <= i < |c.points| ensures Settled(c, offers, i) {
        assert i in v;
        var k :| 0 <= k < |v| && v[k] == i;
      }
    }

    /** findNeighbors: afterwards every point has been offered or is too far to matter. */
    method FindNeighbors(rs: ResultSet, vec: Point, eps: real) returns (r: Outcome<bool>)
      requires Valid() && rs.Valid() && {this, vind} !! rs.Repr() && rs.Offers() == []
      requires |vec| == dim && 0.0 <= eps
      modifies rs.Repr()
      ensures rs.Valid() && QueryOk(Query(points, metric, vec, 1.0 + eps, rs.Mode()))
      ensures r.NotBuilt? <==> points != [] && root.NoTree?
      ensures r.NotBuilt? ==> rs.Offers() == []
      ensures r.Done? ==> AllSettled(Query(points, metric, vec, 1.0 + eps, rs.Mode()), rs.Offers())
      ensures r.Done? ==> (r.value <==> points != [] && (rs.Mode().Nearest? ==> rs.Mode().k <= |rs.Offers()|))
    {
      hide DistanceTo, Accum, Sum, BoundsBelow, TreeOk, Permutation, Settled, Worst;
      if |points| == 0 {
        return Done(false);
      }
      if root.NoTree? {
        return NotBuilt;
      }
      var epsError := 1.0 + eps;
      ghost var c := Query(points, metric, vec, epsError, rs.Mode());
      var dists := new real[dim](_ => 0.0);
      assert dists[..] == seq(dim, _ => 0.0);
      var distsq := ComputeInitialDistances(vec, dists);
      StartReady(c, vind[..], root.node, rootBbox, dists[..], distsq);
      SearchLevel(rs, vec, root.node, distsq, dists, epsError);
      DoneSettles(c, vind[..], rs.Offers());
      var full := rs.Full();
      r := Done(full);
    }

    /** knnSearch: the k nearest neighbours, with the distances that brute force finds. */
    method KnnSearch(vec: Point, k: nat, outIndices: array<nat>, outDists: array<real>) returns (r: Outcome<nat>)
      requires Valid() && |vec| == dim && 0 < k
      requires k <= outIndices.Length && k <= outDists.Length && outIndices != vind
      modifies outIndices, outDists
      ensures r.NotBuilt? <==> points != [] && root.NoTree?
      ensures r.Done? ==>
        && r.value <= k
        && KnnAnswer(Query(points, metric, vec, 1.0, Nearest(k, maxDist)), Pairs(outDists[..], outIndices[..], r.value))
    {
      hide KBest, KnnAnswer, AllSettled;
      var results := new KNNResultSet(k, outIndices, outDists, maxDist);
      var found := FindNeighbors(KnnSet(results), vec, 0.0);
      match found
      case NotBuilt => r := NotBuilt;
      case Done(_) =>
        var n := results.Size();
        ExactAnswer(Query(points, metric, vec, 1.0, Nearest(k, maxDist)), results.offers);
        r := Done(n);
    }

    /** radiusSearch: the points inside the radius, sorted by distance and index on request. */
    method RadiusSearch(vec: Point, radius: real, eps: real, sorted: bool) returns (r: Outcome<nat>, hits: seq<Hit>)
      requires Valid() && |vec| == dim && 0.0 <= eps
      ensures r.NotBuilt? <==> points != [] && root.NoTree?
      ensures r.Done? ==>
        && r.value == |hits|
        && InsideRadius(Query(points, metric, vec, 1.0 + eps, Within(radius)), radius, hits)
        && (sorted ==> Sorted(hits))
        && (sorted ==> forall i, j :: 0 <= i < j < |hits| && hits[i].dist == hits[j].dist ==>
                         hits[i].index < hits[j].index)
    {
      hide AllSettled, InsideRadius;
      var results := new RadiusResultSet(radius);
      var found := FindNeighbors(RadiusSet(results), vec, eps);
      hits := results.hits;
      match found
      case NotBuilt => r := NotBuilt;
      case Done(_) =>
        RadiusResult(Query(points, metric, vec, 1.0 + eps, Within(radius)), results.offers);
        if sorted {
          SortedResult(Query(points, metric, vec, 1.0 + eps, Within(radius)), radius, hits);
          hits := SortPairs(hits);
        }
        r := Done(|hits|);
    }
  }

  /** The whole promise at once: index any points, then ask for the k nearest. */
  method BuildThenSearch(points: seq<Point>, dim: nat, leafMax: nat, metric: Kind, maxDist: real, vec: Point, k: nat)
    returns (hits: seq<Hit>)
    requires DataOk(points, dim) && 1 <= leafMax && |vec| == dim && 0 < k
    ensures KnnAnswer(Query(points, metric, vec, 1.0, Nearest(k, maxDist)), hits)
  {
    var tree := new KDTree(points, dim, leafMax, metric, maxDist);
    tree.BuildIndex();
    var indices, dists := new nat[k], new real[k];
    var r := tree.KnnSearch(vec, k, indices, dists);
    hits := Pairs(dists[..], indices[..], r.value);
  }
}
