/** What the answers of a finished search mean, stated against a scan over all points. */
module KdResults {
  import opened ResultSets
  import opened KdSearch

  ghost predicate Distinct(s: seq<Hit>) {
    forall i, j :: 0 <= i < j < |s| ==> s[i].index != s[j].index
  }

  lemma InsertDistinct(s: seq<Hit>, h: Hit)
    requires Distinct(s) && forall x :: x in s ==> x.index != h.index
    ensures Distinct(Insert(s, h))
  {
    var p := Slot(s, h.dist);
    var r := s[..p] + [h] + s[p..];
    forall i, j | 0 <= i < j < |r| ensures r[i].index != r[j].index {
      if i != p && j != p {
        assert r[i] == s[if i < p then i else i - 1];
        assert r[j] == s[if j < p then j else j - 1];
      } else {
        assert r[if i == p then j else i] in s;
      }
    }
  }

  lemma {:induction false} StableSortDistinct(offers: seq<Hit>)
    requires Distinct(offers)
    ensures Distinct(StableSort(offers))
  {
    if offers == [] {
    } else {
      var front, h := offers[..|offers| - 1], offers[|offers| - 1];
      StableSortDistinct(front);
      StableSortPermutes(front);
      forall x | x in StableSort(front) ensures x.index != h.index {
        assert x in multiset(front);
        var i :| 0 <= i < |front| && front[i] == x;
        assert x == offers[i];
      }
      InsertDistinct(StableSort(front), h);
    }
  }

  lemma {:induction false} DistinctCard(s: seq<Hit>)
    requires Distinct(s)
    ensures |Offered(s)| == |s|
  {
    if s == [] {
    } else {
      var front, h := s[..|s| - 1], s[|s| - 1];
      DistinctCard(front);
      OfferedAppend(front, h);
      assert s == front + [h];
      assert h.index !in Offered(front);
    }
  }

  // ---------- nearest neighbours

  /** hits are nearest neighbours as the documentation promises them: distinct points with their true
      distances in ascending order, at most k, none left out that is nearer than the last one, and
      fewer than k only if no further point lies below the sentinel. */
  ghost predicate NearestK(c: Query, hits: seq<Hit>)
    requires c.mode.Nearest?
  {
    && Sorted(hits) && Distinct(hits) && |hits| <= c.mode.k
    && (forall h :: h in hits ==> h.index < |c.points| && h.dist == D(c, h.index) && h.dist < c.mode.max)
    && (forall i :: 0 <= i < |c.points| && i !in Offered(hits) ==> FarEnough(c, hits, i))
  }

  ghost predicate FarEnough(c: Query, hits: seq<Hit>, i: nat)
    requires c.mode.Nearest?
  {
    if |hits| < c.mode.k then c.mode.max <= D(c, i) else hits == [] || hits[|hits| - 1].dist <= D(c, i)
  }

  ghost predicate AllSettled(c: Query, offers: seq<Hit>)
    requires QueryOk(c)
  {
    OffersOk(c, offers) && forall i :: 0 <= i < |c.points| ==> Settled(c, offers, i)
  }

  /** An offered pair that was not kept is no nearer than the worst distance. */
  lemma EvictedIsFar(c: Query, offers: seq<Hit>, i: nat)
    requires QueryOk(c) && OffersOk(c, offers) && c.mode.Nearest?
    requires i in Offered(offers) && i !in Offered(KBest(offers, c.mode.k))
    ensures |offers| > c.mode.k && Worst(c.mode, offers) <= D(c, i)
  {
    var k := c.mode.k;
    var kept := KBest(offers, k);
    var h :| h in offers && h.index == i;
    KBestSplit(offers, k);
    var rest := StableSort(offers)[|kept|..];
    assert h !in kept;
    assert h in multiset(offers);
    assert h in multiset(rest);
    assert h in rest;
    assert kept[k - 1] in kept;
  }

  lemma KeptFacts(c: Query, offers: seq<Hit>, k: nat)
    requires OffersOk(c, offers)
    ensures Sorted(KBest(offers, k)) && Distinct(KBest(offers, k))
    ensures forall h :: h in KBest(offers, k) ==> h in offers && h.index < |c.points| && h.dist == D(c, h.index)
  {
    KBestSorted(offers, k);
    StableSortDistinct(offers);
    KBestOffered(offers, k);
  }

  /** The error guarantee: whatever is left out is, scaled by 1 + eps, no nearer than the worst kept. */
  lemma LeftOutIsFar(c: Query, offers: seq<Hit>, i: nat)
    requires QueryOk(c) && AllSettled(c, offers) && c.mode.Nearest?
    requires i < |c.points| && i !in Offered(KBest(offers, c.mode.k))
    ensures Worst(c.mode, offers) <= D(c, i) * c.err
  {
    hide Scaled, D, KBest;
    ScaledIs(D(c, i), c.err);
    assert Settled(c, offers, i);
    if i in Offered(offers) {
      EvictedIsFar(c, offers, i);
      ScaledGrows(D(c, i), c.err);
    }
  }

  lemma ExactLeftOut(c: Query, offers: seq<Hit>, i: nat)
    requires QueryOk(c) && AllSettled(c, offers) && c.mode.Nearest? && c.err == 1.0
    requires i < |c.points| && i !in Offered(KBest(offers, c.mode.k))
    ensures FarEnough(c, KBest(offers, c.mode.k), i)
  {
    hide KBest, D;
    LeftOutIsFar(c, offers, i);
  }

  /** With eps = 0 the kept pairs are true nearest neighbours. */
  lemma ExactNearest(c: Query, offers: seq<Hit>)
    requires QueryOk(c) && AllSettled(c, offers) && c.mode.Nearest? && c.err == 1.0
    ensures NearestK(c, KBest(offers, c.mode.k))
  {
    KeptFacts(c, offers, c.mode.k);
    forall i | 0 <= i < |c.points| && i !in Offered(KBest(offers, c.mode.k))
      ensures FarEnough(c, KBest(offers, c.mode.k), i)
    {
      ExactLeftOut(c, offers, i);
    }
  }

  /** A scan over all points: every point below the sentinel, in index order. */
  ghost function ScanAll(c: Query, n: nat): seq<Hit>
    requires c.mode.Nearest?
  {
    if n == 0 then [] else
    var rest := ScanAll(c, n - 1);
    if D(c, n - 1) < c.mode.max then rest + [Hit(D(c, n - 1), n - 1)] else rest
  }

  /** Brute force: offer every point, keep the k best. */
  ghost function BruteForce(c: Query): seq<Hit>
    requires c.mode.Nearest?
  {
    KBest(ScanAll(c, |c.points|), c.mode.k)
  }

  lemma {:induction false} ScanAllFacts(c: Query, n: nat)
    requires c.mode.Nearest?
    ensures forall h :: h in ScanAll(c, n) <==> h.index < n && h.dist == D(c, h.index) && h.dist < c.mode.max
    ensures Distinct(ScanAll(c, n)) && |ScanAll(c, n)| <= n
    ensures (forall i :: 0 <= i < n ==> D(c, i) < c.mode.max) ==> |ScanAll(c, n)| == n
  {
    if n == 0 {
    } else {
      ScanAllFacts(c, n - 1);
      var rest := ScanAll(c, n - 1);
      forall i, j | 0 <= i < j < |ScanAll(c, n)| ensures ScanAll(c, n)[i].index != ScanAll(c, n)[j].index {
        assert rest[i] in rest;
      }
    }
  }

  lemma ScanSettles(c: Query)
    requires QueryOk(c) && c.mode.Nearest?
    ensures AllSettled(c, ScanAll(c, |c.points|))
  {
    var scan := ScanAll(c, |c.points|);
    ScanAllFacts(c, |c.points|);
    assert forall i :: 0 <= i < |scan| ==> scan[i] in scan;
    forall i | 0 <= i < |c.points| ensures Settled(c, scan, i) {
      if D(c, i) < c.mode.max {
        assert Hit(D(c, i), i) in scan;
      } else {
        WorstShrinks(c.mode, [], scan);
        ScaledGrows(D(c, i), c.err);
      }
    }
  }

  /** Neither of two lists of nearest neighbours can hold a smaller distance in any place. */
  lemma NeverNearer(c: Query, a: seq<Hit>, b: seq<Hit>, j: nat)
    requires c.mode.Nearest? && NearestK(c, a) && NearestK(c, b)
    requires j < |a| && j <= |b| && (j == |b| ==> |b| < c.mode.k)
    ensures j < |b| && b[j].dist <= a[j].dist
  {
    if j == |b| || a[j].dist < b[j].dist {
      var near, kept := a[..j + 1], b[..j];
      forall i | i in Offered(near) ensures i in Offered(kept) {
        var p :| 0 <= p <= j && a[p].index == i;
        NearIsKept(c, a, b, j, p);
      }
      DistinctCard(near);
      DistinctCard(kept);
      SubsetCard(Offered(near), Offered(kept));
    }
  }

  lemma NearIsKept(c: Query, a: seq<Hit>, b: seq<Hit>, j: nat, p: nat)
    requires c.mode.Nearest? && NearestK(c, a) && NearestK(c, b)
    requires p <= j < |a| && j <= |b|
    requires if j == |b| then |b| < c.mode.k else a[j].dist < b[j].dist
    ensures a[p].index in Offered(b[..j])
  {
    assert a[p] in a && a[p].dist <= a[j].dist;
    assert !FarEnough(c, b, a[p].index);
    var h :| h in b && h.index == a[p].index;
    var r :| 0 <= r < |b| && b[r] == h;
    assert h.dist == a[p].dist;
    assert r < j;
    assert h in b[..j];
  }

  lemma {:induction false} SubsetCard(a: set<nat>, b: set<nat>)
    requires a <= b
    ensures |a| <= |b|
  {
    if a == {} {
    } else {
      var x :| x in a;
      SubsetCard(a - {x}, b - {x});
    }
  }

  /** Ties aside, the answer is unique: two lists of nearest neighbours agree on every distance. */
  lemma NearestUnique(c: Query, a: seq<Hit>, b: seq<Hit>)
    requires c.mode.Nearest? && NearestK(c, a) && NearestK(c, b)
    ensures |a| == |b| && forall j :: 0 <= j < |a| ==> a[j].dist == b[j].dist
  {
    if |a| > |b| {
      NeverNearer(c, a, b, |b|);
    } else if |b| > |a| {
      NeverNearer(c, b, a, |a|);
    }
    forall j | 0 <= j < |a| ensures a[j].dist == b[j].dist {
      NeverNearer(c, a, b, j);
      NeverNearer(c, b, a, j);
    }
  }

  /** So the distances are those of brute force, and min(k, N) of them if all lie below the sentinel. */
  lemma NearestIsBruteForce(c: Query, hits: seq<Hit>)
    requires QueryOk(c) && c.err == 1.0 && c.mode.Nearest? && NearestK(c, hits)
    ensures var brute := BruteForce(c);
      |hits| == |brute| && forall j :: 0 <= j < |hits| ==> hits[j].dist == brute[j].dist
    ensures (forall i :: 0 <= i < |c.points| ==> D(c, i) < c.mode.max) ==>
      |hits| == if c.mode.k < |c.points| then c.mode.k else |c.points|
  {
    ScanSettles(c);
    ExactNearest(c, ScanAll(c, |c.points|));
    NearestUnique(c, hits, BruteForce(c));
    ScanAllFacts(c, |c.points|);
  }

  /** The full promise of a nearest-neighbour query. */
  ghost predicate KnnAnswer(c: Query, hits: seq<Hit>)
    requires c.mode.Nearest?
  {
    && NearestK(c, hits)
    && |hits| == |BruteForce(c)| && (forall j :: 0 <= j < |hits| ==> hits[j].dist == BruteForce(c)[j].dist)
    && ((forall i :: 0 <= i < |c.points| ==> D(c, i) < c.mode.max) ==>
          |hits| == if c.mode.k < |c.points| then c.mode.k else |c.points|)
  }

  lemma ExactAnswer(c: Query, offers: seq<Hit>)
    requires QueryOk(c) && AllSettled(c, offers) && c.mode.Nearest? && c.err == 1.0
    ensures KnnAnswer(c, KBest(offers, c.mode.k))
  {
    ExactNearest(c, offers);
    NearestIsBruteForce(c, KBest(offers, c.mode.k));
  }

  // ---------- radius search

  /** The order of IndexDist_Sorter on pairs with different indices. */
  predicate Before(a: Hit, b: Hit) {
    a.dist < b.dist || (a.dist == b.dist && a.index < b.index)
  }

  /** Ascending by distance, and by index where distances are equal. */
  ghost predicate Ascending(s: seq<Hit>) {
    Sorted(s) && forall i, j :: 0 <= i < j < |s| && s[i].dist == s[j].dist ==> s[i].index < s[j].index
  }

  function Place(s: seq<Hit>, h: Hit): (r: seq<Hit>)
    ensures multiset(r) == multiset(s) + multiset{h}
  {
    if s == [] || Before(s[|s| - 1], h) then s + [h] else
    assert s == s[..|s| - 1] + [s[|s| - 1]];
    Place(s[..|s| - 1], h) + [s[|s| - 1]]
  }

  /** Stands for the library sort with the pair order of IndexDist_Sorter. */
  function SortPairs(s: seq<Hit>): (r: seq<Hit>)
    ensures multiset(r) == multiset(s)
  {
    if s == [] then [] else
    assert s == s[..|s| - 1] + [s[|s| - 1]];
    Place(SortPairs(s[..|s| - 1]), s[|s| - 1])
  }

  lemma {:induction false} PlaceAscending(s: seq<Hit>, h: Hit)
    requires Ascending(s) && forall x :: x in s ==> x.index != h.index
    ensures Ascending(Place(s, h))
  {
    if s != [] && !Before(s[|s| - 1], h) {
      var front, l := s[..|s| - 1], s[|s| - 1];
      PlaceAscending(front, h);
      assert l in s;
      var r := Place(front, h);
      forall i | 0 <= i < |r| ensures Before(r[i], l) {
        assert r[i] in multiset(r);
        assert r[i] in front || r[i] == h;
      }
    }
  }

  lemma {:induction false} SortPairsAscending(s: seq<Hit>)
    requires Distinct(s)
    ensures Ascending(SortPairs(s))
  {
    if s == [] {
    } else {
      var front, h := s[..|s| - 1], s[|s| - 1];
      SortPairsAscending(front);
      forall x | x in SortPairs(front) ensures x.index != h.index {
        assert x in multiset(front);
        var i :| 0 <= i < |front| && front[i] == x;
        assert x == s[i];
      }
      PlaceAscending(SortPairs(front), h);
    }
  }

  lemma {:induction false} InRadiusDistinct(offers: seq<Hit>, radius: real)
    requires Distinct(offers)
    ensures Distinct(InRadius(offers, radius))
  {
    if offers == [] {
    } else {
      var front := offers[..|offers| - 1];
      InRadiusDistinct(front, radius);
      forall x | x in InRadius(front, radius) ensures x.index != offers[|offers| - 1].index {
        var i :| 0 <= i < |front| && front[i] == x;
        assert x == offers[i];
      }
    }
  }

  /** Inside the radius even when the distance is blown up by the error factor. */
  ghost predicate WellInside(c: Query, radius: real, i: nat) {
    D(c, i) * c.err < radius
  }

  /** Only points inside the radius, each once; with error factor 1 all of them, otherwise at least
      those well inside. */
  ghost predicate InsideRadius(c: Query, radius: real, hits: seq<Hit>) {
    && Distinct(hits)
    && (forall h :: h in hits ==> h.index < |c.points| && h.dist == D(c, h.index) < radius)
    && (forall i :: 0 <= i < |c.points| && WellInside(c, radius, i) ==> Hit(D(c, i), i) in hits)
  }

  lemma WellInsideIsOffered(c: Query, offers: seq<Hit>, i: nat)
    requires QueryOk(c) && c.mode.Within? && Settled(c, offers, i) && WellInside(c, c.mode.radius, i)
    ensures i in Offered(offers) && D(c, i) < c.mode.radius
  {
    hide Scaled, D, Offered;
    ScaledIs(D(c, i), c.err);
    ScaledGrows(D(c, i), c.err);
  }

  lemma OfferedIsFound(c: Query, offers: seq<Hit>, i: nat, radius: real)
    requires OffersOk(c, offers) && i in Offered(offers) && D(c, i) < radius
    ensures Hit(D(c, i), i) in InRadius(offers, radius)
  {
    hide D;
    var h :| h in offers && h.index == i;
  }

  lemma RadiusResult(c: Query, offers: seq<Hit>)
    requires QueryOk(c) && AllSettled(c, offers) && c.mode.Within?
    ensures InsideRadius(c, c.mode.radius, InRadius(offers, c.mode.radius))
  {
    hide Scaled, D, WellInside, Settled;
    InRadiusDistinct(offers, c.mode.radius);
    forall i | 0 <= i < |c.points| && WellInside(c, c.mode.radius, i)
      ensures Hit(D(c, i), i) in InRadius(offers, c.mode.radius)
    {
      WellInsideIsOffered(c, offers, i);
      OfferedIsFound(c, offers, i, c.mode.radius);
    }
  }

  /** With eps = 0 the result is exact: a point is in it if and only if it lies strictly inside. */
  lemma RadiusExact(c: Query, radius: real, hits: seq<Hit>, i: nat)
    requires c.err == 1.0 && InsideRadius(c, radius, hits) && i < |c.points|
    ensures i in Offered(hits) <==> D(c, i) < radius
    ensures i in Offered(hits) <==> Hit(D(c, i), i) in hits
  {
    if i in Offered(hits) {
      var h :| h in hits && h.index == i;
    }
  }

  lemma SortPairsMembers(s: seq<Hit>)
    ensures |SortPairs(s)| == |s| && forall h :: h in SortPairs(s) <==> h in s
  {
    hide SortPairs;
    var r := SortPairs(s);
    assert |r| == |multiset(r)| == |multiset(s)| == |s|;
    assert forall h :: h in r <==> h in multiset(r);
    assert forall h :: h in s <==> h in multiset(s);
  }

  lemma AscendingDistinct(c: Query, r: seq<Hit>)
    requires Ascending(r) && forall h :: h in r ==> h.dist == D(c, h.index)
    ensures Distinct(r)
  {
    hide D;
    forall i, j | 0 <= i < j < |r| ensures r[i].index != r[j].index {
      assert r[i] in r && r[j] in r;
    }
  }

  lemma SortedResult(c: Query, radius: real, hits: seq<Hit>)
    requires InsideRadius(c, radius, hits)
    ensures InsideRadius(c, radius, SortPairs(hits)) && Ascending(SortPairs(hits))
    ensures |SortPairs(hits)| == |hits|
  {
    hide D, WellInside, SortPairs, Ascending, Distinct;
    SortPairsAscending(hits);
    SortPairsMembers(hits);
    AscendingDistinct(c, SortPairs(hits));
  }
}
