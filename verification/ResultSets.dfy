/** The result sets that a KD-tree search feeds: a bounded sorted list of the nearest hits, and
    an unbounded list of all hits within a radius. Both are specified by the sequence of pairs
    offered to them. */
module ResultSets {

  datatype Hit = Hit(dist: real, index: nat)

  ghost predicate Sorted(s: seq<Hit>) {
    forall i, j :: 0 <= i < j < |s| ==> s[i].dist <= s[j].dist
  }

  /** The place of a new distance, found from the back: behind every entry that is not larger. */
  function Slot(s: seq<Hit>, dist: real): (p: nat)
    ensures p <= |s|
    ensures p > 0 ==> s[p - 1].dist <= dist
    ensures forall j :: p <= j < |s| ==> dist < s[j].dist
  {
    if s == [] || s[|s| - 1].dist <= dist then |s| else Slot(s[..|s| - 1], dist)
  }

  function Insert(s: seq<Hit>, h: Hit): (r: seq<Hit>)
    ensures |r| == |s| + 1
  {
    var p := Slot(s, h.dist);
    s[..p] + [h] + s[p..]
  }

  function Truncate(s: seq<Hit>, k: nat): seq<Hit> {
    if |s| <= k then s else s[..k]
  }

  function StableSort(offers: seq<Hit>): (r: seq<Hit>)
    ensures |r| == |offers|
  {
    if offers == [] then [] else Insert(StableSort(offers[..|offers| - 1]), offers[|offers| - 1])
  }

  /** The k smallest offers in ascending order, earlier offers first among equal distances. */
  function KBest(offers: seq<Hit>, k: nat): (r: seq<Hit>)
    ensures |r| == if |offers| <= k then |offers| else k
  {
    Truncate(StableSort(offers), k)
  }

  /** The entries at distance d, in the order of s. */
  function AtDist(s: seq<Hit>, d: real): seq<Hit> {
    if s == [] then [] else
    var rest := AtDist(s[..|s| - 1], d);
    if s[|s| - 1].dist == d then rest + [s[|s| - 1]] else rest
  }

  // ---------- StableSort is the stable sort

  lemma InsertSorted(s: seq<Hit>, h: Hit)
    requires Sorted(s)
    ensures Sorted(Insert(s, h))
  {
  }

  lemma {:induction false} StableSortSorted(offers: seq<Hit>)
    ensures Sorted(StableSort(offers))
  {
    if offers == [] {
    } else {
      StableSortSorted(offers[..|offers| - 1]);
      InsertSorted(StableSort(offers[..|offers| - 1]), offers[|offers| - 1]);
    }
  }

  lemma {:induction false} StableSortPermutes(offers: seq<Hit>)
    ensures multiset(StableSort(offers)) == multiset(offers)
  {
    if offers == [] {
    } else {
      var front, h := offers[..|offers| - 1], offers[|offers| - 1];
      StableSortPermutes(front);
      InsertAdds(StableSort(front), h);
      assert offers == front + [h];
    }
  }

  lemma InsertAdds(s: seq<Hit>, h: Hit)
    ensures multiset(Insert(s, h)) == multiset(s) + multiset{h}
  {
    var p := Slot(s, h.dist);
    assert s == s[..p] + s[p..];
  }

  lemma {:induction false} AtDistConcat(s: seq<Hit>, t: seq<Hit>, d: real)
    ensures AtDist(s + t, d) == AtDist(s, d) + AtDist(t, d)
  {
    if t == [] {
      assert s + t == s;
    } else {
      AtDistConcat(s, t[..|t| - 1], d);
      assert (s + t)[..|s + t| - 1] == s + t[..|t| - 1];
    }
  }

  lemma {:induction false} AtDistNone(s: seq<Hit>, d: real)
    requires forall h :: h in s ==> h.dist != d
    ensures AtDist(s, d) == []
  {
    if s == [] {
    } else {
      AtDistNone(s[..|s| - 1], d);
    }
  }

  lemma InsertAtDist(s: seq<Hit>, h: Hit, d: real)
    ensures AtDist(Insert(s, h), d) == AtDist(s, d) + if h.dist == d then [h] else []
  {
    hide AtDist, Slot;
    var p := Slot(s, h.dist);
    AtDistThree(s[..p], h, s[p..], d);
    AtDistConcat(s[..p], s[p..], d);
    assert s[..p] + s[p..] == s;
    if h.dist == d {
      AtDistNone(s[p..], d);
    }
  }

  lemma AtDistThree(lo: seq<Hit>, h: Hit, hi: seq<Hit>, d: real)
    ensures AtDist(lo + [h] + hi, d) == AtDist(lo, d) + (if h.dist == d then [h] else []) + AtDist(hi, d)
  {
    AtDistConcat(lo + [h], hi, d);
    assert (lo + [h])[..|lo|] == lo;
  }

  /** Stability: offers at equal distance keep the order in which they came. */
  lemma {:induction false} StableSortStable(offers: seq<Hit>, d: real)
    ensures AtDist(StableSort(offers), d) == AtDist(offers, d)
  {
    if offers == [] {
    } else {
      var front, h := offers[..|offers| - 1], offers[|offers| - 1];
      StableSortStable(front, d);
      InsertAtDist(StableSort(front), h, d);
    }
  }

  /** Sorted and stable leaves one list only: StableSort is determined by these two facts. */
  lemma StableSortUnique(offers: seq<Hit>, s: seq<Hit>)
    requires Sorted(s)
    requires forall d :: AtDist(s, d) == AtDist(offers, d)
    ensures s == StableSort(offers)
  {
    StableSortSorted(offers);
    var t := StableSort(offers);
    forall d ensures AtDist(s, d) == AtDist(t, d) {
      StableSortStable(offers, d);
    }
    SameAtDist(s, t);
  }

  lemma {:induction false} AtDistMember(s: seq<Hit>, h: Hit)
    requires h in s
    ensures AtDist(s, h.dist) != []
  {
    if s[|s| - 1] != h {
      AtDistMember(s[..|s| - 1], h);
    }
  }

  lemma {:induction false} AtDistFilters(s: seq<Hit>, d: real)
    ensures forall h :: h in AtDist(s, d) ==> h in s && h.dist == d
  {
    if s == [] {
    } else {
      AtDistFilters(s[..|s| - 1], d);
    }
  }

  lemma {:induction false} SameAtDist(s: seq<Hit>, t: seq<Hit>)
    requires Sorted(s) && Sorted(t)
    requires forall d :: AtDist(s, d) == AtDist(t, d)
    ensures s == t
  {
    if s == [] || t == [] {
      var d := if s != [] then s[0].dist else if t != [] then t[0].dist else 0.0;
      assert AtDist(s, d) == AtDist(t, d);
      if s != [] { AtDistMember(s, s[0]); }
      if t != [] { AtDistMember(t, t[0]); }
    } else {
      LastDistAtMost(s, t);
      LastDistAtMost(t, s);
      var a, b := s[|s| - 1], t[|t| - 1];
      var s', t' := s[..|s| - 1], t[..|t| - 1];
      assert AtDist(s, a.dist) == AtDist(s', a.dist) + [a];
      assert AtDist(t, a.dist) == AtDist(t', a.dist) + [b];
      assert a == (AtDist(s', a.dist) + [a])[|AtDist(s', a.dist)|] == b;
      forall d ensures AtDist(s', d) == AtDist(t', d) {
        assert AtDist(s, d) == AtDist(t, d);
        if d == a.dist {
          assert AtDist(s', d) == (AtDist(s', d) + [a])[..|AtDist(s', d) + [a]| - 1];
        }
      }
      SameAtDist(s', t');
      assert s == s' + [a] && t == t' + [b];
    }
  }

  lemma LastDistAtMost(s: seq<Hit>, t: seq<Hit>)
    requires s != [] && t != [] && Sorted(t)
    requires forall d :: AtDist(s, d) == AtDist(t, d)
    ensures s[|s| - 1].dist <= t[|t| - 1].dist
  {
    var a := s[|s| - 1];
    AtDistMember(s, a);
    AtDistFilters(t, a.dist);
    assert AtDist(t, a.dist)[0] in t;
  }

  /** Dropping everything behind place k before an insertion changes nothing before place k. */
  lemma InsertTruncated(s: seq<Hit>, h: Hit, k: nat)
    requires Sorted(s)
    ensures Truncate(Insert(Truncate(s, k), h), k) == Truncate(Insert(s, h), k)
  {
    if |s| > k {
      var p := Slot(s, h.dist);
      SlotTaken(s, h.dist, k);
      SpliceTaken(s, h, p, k);
    }
  }

  lemma SlotTaken(s: seq<Hit>, dist: real, k: nat)
    requires Sorted(s) && k <= |s|
    ensures Slot(s[..k], dist) == if Slot(s, dist) <= k then Slot(s, dist) else k
  {
    var p, q := Slot(s, dist), Slot(s[..k], dist);
    assert p > 0 ==> s[p - 1].dist <= dist;
    assert q > 0 ==> s[..k][q - 1] == s[q - 1];
    assert q < k ==> s[..k][q] == s[q];
  }

  lemma SpliceTaken(s: seq<Hit>, h: Hit, p: nat, k: nat)
    requires p <= |s| && k < |s|
    ensures var q := if p <= k then p else k;
      (s[..p] + [h] + s[p..])[..k] == (s[..k][..q] + [h] + s[..k][q..])[..k]
  {
  }

  lemma KBestStep(offers: seq<Hit>, h: Hit, k: nat)
    ensures KBest(offers + [h], k) == Truncate(Insert(KBest(offers, k), h), k)
  {
    StableSortSorted(offers);
    InsertTruncated(StableSort(offers), h, k);
    assert (offers + [h])[..|offers + [h]| - 1] == offers;
  }

  /** Everything offered but not kept is at least as far as everything kept. */
  lemma KBestSplit(offers: seq<Hit>, k: nat)
    ensures var rest := StableSort(offers)[|KBest(offers, k)|..];
      && multiset(offers) == multiset(KBest(offers, k)) + multiset(rest)
      && Sorted(KBest(offers, k))
      && forall a, b :: a in KBest(offers, k) && b in rest ==> a.dist <= b.dist
  {
    StableSortSorted(offers);
    StableSortPermutes(offers);
    var s := StableSort(offers);
    assert s == KBest(offers, k) + s[|KBest(offers, k)|..];
  }

  // ---------- what a search needs of either result set

  datatype Mode = Nearest(k: nat, max: real) | Within(radius: real)

  ghost predicate Admissible(mode: Mode, offers: seq<Hit>) {
    mode.Nearest? ==> mode.k > 0 && forall h :: h in offers ==> h.dist < mode.max
  }

  /** The distance a new hit has to stay below to matter. */
  function Worst(mode: Mode, offers: seq<Hit>): real
    requires mode.Nearest? ==> mode.k > 0
  {
    match mode
    case Nearest(k, max) => if |offers| < k then max else KBest(offers, k)[k - 1].dist
    case Within(radius) => radius
  }

  lemma WorstMonotone(mode: Mode, offers: seq<Hit>, h: Hit)
    requires Admissible(mode, offers + [h])
    ensures Worst(mode, offers + [h]) <= Worst(mode, offers)
  {
    if mode.Nearest? {
      var k := mode.k;
      if k <= |offers| {
        FullWorstMonotone(offers, h, k);
      } else if |offers| + 1 == k {
        KBestOffered(offers + [h], k);
        assert KBest(offers + [h], k)[k - 1] in KBest(offers + [h], k);
      }
    }
  }

  lemma FullWorstMonotone(offers: seq<Hit>, h: Hit, k: nat)
    requires 0 < k <= |offers|
    ensures KBest(offers + [h], k)[k - 1].dist <= KBest(offers, k)[k - 1].dist
  {
    KBestStep(offers, h, k);
    KBestSorted(offers, k);
    InsertLowersLast(KBest(offers, k), h);
  }

  lemma KBestSorted(offers: seq<Hit>, k: nat)
    ensures Sorted(KBest(offers, k))
  {
    StableSortSorted(offers);
  }

  lemma InsertLowersLast(s: seq<Hit>, h: Hit)
    requires s != [] && Sorted(s)
    ensures Insert(s, h)[|s| - 1].dist <= s[|s| - 1].dist
  {
  }

  lemma KBestOffered(offers: seq<Hit>, k: nat)
    ensures forall h :: h in KBest(offers, k) ==> h in offers
  {
    StableSortPermutes(offers);
    forall h | h in KBest(offers, k) ensures h in offers {
      assert h in multiset(StableSort(offers));
    }
  }

  // ---------- the nearest-neighbour set

  /** The first n entries of a distance array and an index array, paired. */
  function Pairs(ds: seq<real>, ixs: seq<nat>, n: nat): (r: seq<Hit>)
    requires n <= |ds| && n <= |ixs|
    ensures |r| == n
    ensures forall i :: 0 <= i < n ==> r[i] == Hit(ds[i], ixs[i])
  {
    seq(n, i requires 0 <= i < n => Hit(ds[i], ixs[i]))
  }

  /** A splice at place p cut off at length k, read off entry by entry. */
  lemma SpliceTruncated(s: seq<Hit>, h: Hit, p: nat, k: nat, t: seq<Hit>)
    requires p <= |s| <= k
    requires |t| == if |s| < k then |s| + 1 else k
    requires forall j {:trigger s[j]} :: 0 <= j < p ==> t[j] == s[j]
    requires p < |t| ==> t[p] == h
    requires forall j {:trigger s[j]} :: p <= j < |t| - 1 ==> t[j + 1] == s[j]
    ensures t == Truncate(s[..p] + [h] + s[p..], k)
  {
    assert t[..p] == s[..p];
    if p < |t| {
      assert t[p + 1..] == s[p..|t| - 1];
      assert t == t[..p] + [h] + t[p + 1..];
    }
  }

  class KNNResultSet {
    const capacity: nat
    const maxDist: real
    const indices: array<nat>
    const dists: array<real>
    var count: nat
    ghost var offers: seq<Hit>

    ghost predicate Valid()
      reads this, indices, dists
    {
      && capacity <= indices.Length && capacity <= dists.Length
      && count <= capacity
      && Contents() == KBest(offers, capacity)
      && (count < capacity ==> dists[capacity - 1] == maxDist)
    }

    ghost function Contents(): (s: seq<Hit>)
      requires count <= indices.Length && count <= dists.Length
      reads this, indices, dists
    {
      Pairs(dists[..], indices[..], count)
    }

    /** Binds the caller's arrays and plants the sentinel in the last place. */
    constructor (capacity: nat, indices: array<nat>, dists: array<real>, maxDist: real)
      requires capacity <= indices.Length && capacity <= dists.Length
      modifies dists
      ensures Valid() && offers == []
      ensures this.capacity == capacity && this.maxDist == maxDist
      ensures this.indices == indices && this.dists == dists
    {
      this.capacity, this.maxDist := capacity, maxDist;
      this.indices, this.dists := indices, dists;
      count, offers := 0, [];
      new;
      if capacity != 0 {
        dists[capacity - 1] := maxDist;
      }
    }

    method Size() returns (n: nat)
      requires Valid()
      ensures n == |KBest(offers, capacity)|
    {
      n := count;
    }

    method Full() returns (b: bool)
      requires Valid()
      ensures b <==> capacity <= |offers|
    {
      b := count == capacity;
    }

    /** The loop of addPoint: shifts the entries above dist up by one, last first. */
    method OpenGap(dist: real, ghost s: seq<Hit>) returns (i: nat)
      requires count <= capacity <= indices.Length && capacity <= dists.Length
      requires |s| == count
      requires forall j :: 0 <= j < count ==> Hit(dists[j], indices[j]) == s[j]
      requires count < capacity - 1 ==> dists[capacity - 1] == maxDist
      modifies indices, dists
      ensures i == Slot(s, dist)
      ensures forall j {:trigger s[j]} :: 0 <= j < i ==> Hit(dists[j], indices[j]) == s[j]
      ensures forall j {:trigger s[j]} :: i <= j < count && j + 1 < capacity ==>
        Hit(dists[j + 1], indices[j + 1]) == s[j]
      ensures count < capacity - 1 ==> dists[capacity - 1] == maxDist
    {
      hide Slot;
      i := count;
      while i > 0 && dists[i - 1] > dist
        invariant Slot(s, dist) <= i <= count
        invariant forall j {:trigger s[j]} :: 0 <= j < i ==> Hit(dists[j], indices[j]) == s[j]
        invariant forall j {:trigger s[j]} :: i <= j < count && j + 1 < capacity ==>
          Hit(dists[j + 1], indices[j + 1]) == s[j]
        invariant count < capacity - 1 ==> dists[capacity - 1] == maxDist
      {
        ghost var top := s[i - 1];
        assert Hit(dists[i - 1], indices[i - 1]) == top;
        if i < capacity {
          dists[i], indices[i] := dists[i - 1], indices[i - 1];
        }
        i := i - 1;
      }
      assert i > 0 ==> s[i - 1].dist <= dist;
    }

    /** Drops the new pair into the gap and counts it, as far as there is room. */
    method FillGap(dist: real, index: nat, i: nat, ghost s: seq<Hit>)
      requires |s| == count <= capacity <= indices.Length && capacity <= dists.Length
      requires i <= count
      requires forall j {:trigger s[j]} :: 0 <= j < i ==> Hit(dists[j], indices[j]) == s[j]
      requires forall j {:trigger s[j]} :: i <= j < count && j + 1 < capacity ==>
        Hit(dists[j + 1], indices[j + 1]) == s[j]
      requires count < capacity - 1 ==> dists[capacity - 1] == maxDist
      modifies this`count, indices, dists
      ensures count <= capacity && (count < capacity ==> dists[capacity - 1] == maxDist)
      ensures Contents() == Truncate(s[..i] + [Hit(dist, index)] + s[i..], capacity)
    {
      if i < capacity {
        dists[i], indices[i] := dist, index;
      }
      if count < capacity {
        count := count + 1;
      }
      SpliceTruncated(s, Hit(dist, index), i, capacity, Contents());
    }

    /** Shifts larger entries up from the back and drops the new pair into the gap. */
    method AddPoint(dist: real, index: nat)
      requires Valid()
      modifies this, indices, dists
      ensures Valid()
      ensures offers == old(offers) + [Hit(dist, index)]
    {
      ghost var s := Contents();
      var i := OpenGap(dist, s);
      FillGap(dist, index, i, s);
      KBestStep(offers, Hit(dist, index), capacity);
      offers := offers + [Hit(dist, index)];
    }

    /** The sentinel until the set is full, the largest kept distance afterwards. */
    method WorstDist() returns (d: real)
      requires Valid() && capacity > 0
      ensures d == Worst(Nearest(capacity, maxDist), offers)
    {
      d := dists[capacity - 1];
      assert count == capacity ==> Contents()[capacity - 1].dist == d;
    }
  }

  /** Any run of offers leaves the k best of them. */
  method OfferAll(offers: seq<Hit>, k: nat, maxDist: real) returns (kept: seq<Hit>)
    ensures kept == KBest(offers, k)
  {
    hide KBest;
    var indices, dists := new nat[k], new real[k];
    var results := new KNNResultSet(k, indices, dists, maxDist);
    for i := 0 to |offers|
      invariant results.Valid() && results.offers == offers[..i] && results.capacity == k
      invariant fresh(results) && fresh(results.indices) && fresh(results.dists)
    {
      results.AddPoint(offers[i].dist, offers[i].index);
    }
    assert offers[..|offers|] == offers;
    kept := Pairs(results.dists[..], results.indices[..], results.count);
  }

  // ---------- the radius set

  function InRadius(offers: seq<Hit>, radius: real): (r: seq<Hit>)
    ensures forall h :: h in r <==> h in offers && h.dist < radius
  {
    if offers == [] then [] else
    var rest := InRadius(offers[..|offers| - 1], radius);
    if offers[|offers| - 1].dist < radius then rest + [offers[|offers| - 1]] else rest
  }

  class RadiusResultSet {
    const radius: real
    var hits: seq<Hit>
    ghost var offers: seq<Hit>

    ghost predicate Valid()
      reads this
    {
      hits == InRadius(offers, radius)
    }

    constructor (radius: real)
      ensures Valid() && offers == [] && this.radius == radius
    {
      this.radius := radius;
      hits, offers := [], [];
    }

    method AddPoint(dist: real, index: nat)
      requires Valid()
      modifies this
      ensures Valid() && offers == old(offers) + [Hit(dist, index)]
    {
      if dist < radius {
        hits := hits + [Hit(dist, index)];
      }
      offers := offers + [Hit(dist, index)];
      assert offers[..|offers| - 1] == old(offers);
    }
  }

  // ---------- either set, as a search sees it

  datatype ResultSet = KnnSet(knn: KNNResultSet) | RadiusSet(rad: RadiusResultSet) {
    ghost function Repr(): set<object> {
      match this
      case KnnSet(s) => {s, s.indices, s.dists}
      case RadiusSet(s) => {s}
    }

    ghost function Mode(): Mode {
      match this
      case KnnSet(s) => Nearest(s.capacity, s.maxDist)
      case RadiusSet(s) => Within(s.radius)
    }

    ghost predicate Valid()
      reads Repr()
    {
      match this
      case KnnSet(s) => s.Valid() && s.capacity > 0
      case RadiusSet(s) => s.Valid()
    }

    ghost function Offers(): seq<Hit>
      reads Repr()
    {
      match this
      case KnnSet(s) => s.offers
      case RadiusSet(s) => s.offers
    }

    method AddPoint(dist: real, index: nat)
      requires Valid()
      modifies Repr()
      ensures Valid() && Offers() == old(Offers()) + [Hit(dist, index)]
    {
      match this
      case KnnSet(s) => s.AddPoint(dist, index);
      case RadiusSet(s) => s.AddPoint(dist, index);
    }

    method WorstDist() returns (d: real)
      requires Valid()
      ensures d == Worst(Mode(), Offers())
    {
      match this
      case KnnSet(s) => d := s.WorstDist();
      case RadiusSet(s) => d := s.radius;
    }

    method Full() returns (b: bool)
      requires Valid()
      ensures b <==> Mode().Nearest? ==> Mode().k <= |Offers()|
    {
      match this
      case KnnSet(s) => b := s.Full();
      case RadiusSet(_) => b := true;
    }
  }
}
