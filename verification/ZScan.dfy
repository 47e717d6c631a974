/** Z-scan (Morton) order: the recursive table, its inverse table, and the bit-interleaving index
    (section 6.5.2 of ITU-T H.265). */
module ZScan {
  import opened Bits
  import opened Permutations
  import opened ScanOrder

  // ---------- interleaving

  /** The bits of x on the even places, those of y on the odd ones. */
  function Interleave(x: nat, y: nat): nat
    decreases x + y
  {
    if x == 0 && y == 0 then 0 else x % 2 + 2 * (y % 2) + 4 * Interleave(x / 2, y / 2)
  }

  function EvenBits(z: nat): nat {
    if z == 0 then 0 else z % 2 + 2 * EvenBits(z / 4)
  }

  function OddBits(z: nat): nat {
    if z == 0 then 0 else z / 2 % 2 + 2 * OddBits(z / 4)
  }

  lemma PairUnique(z: nat, a: nat, b: nat, t: nat)
    requires z == a + 2 * b + 4 * t && a <= 1 && b <= 1
    ensures z / 4 == t && z % 2 == a && z / 2 % 2 == b
  {
    Halves(z, a, b + 2 * t);
    Halves(z / 2, b, t);
    assert z / 4 == z / 2 / 2;
  }

  lemma Halves(x: nat, bit: nat, t: nat)
    requires x == bit + 2 * t && bit <= 1
    ensures x / 2 == t && x % 2 == bit
  {
  }

  lemma {:induction false} Deinterleave(x: nat, y: nat)
    ensures EvenBits(Interleave(x, y)) == x && OddBits(Interleave(x, y)) == y
    decreases x + y
  {
    if x == 0 && y == 0 {
    } else {
      var z, t := Interleave(x, y), Interleave(x / 2, y / 2);
      Deinterleave(x / 2, y / 2);
      InterleaveStep(x, y);
      EvenOddStep(z);
      hide Interleave, EvenBits, OddBits;
      PairUnique(z, x % 2, y % 2, t);
    }
  }

  lemma EvenOddStep(z: nat)
    ensures EvenBits(z) == z % 2 + 2 * EvenBits(z / 4) && OddBits(z) == z / 2 % 2 + 2 * OddBits(z / 4)
  {
  }

  lemma InterleaveStep(x: nat, y: nat)
    ensures Interleave(x, y) == x % 2 + 2 * (y % 2) + 4 * Interleave(x / 2, y / 2)
  {
  }

  lemma {:induction false} Reinterleave(z: nat)
    ensures Interleave(EvenBits(z), OddBits(z)) == z
  {
    hide Interleave, EvenBits, OddBits;
    if z == 0 {
      Origin();
    } else {
      Reinterleave(z / 4);
      var x, y := EvenBits(z), OddBits(z);
      EvenOddStep(z);
      InterleaveStep(x, y);
      Halves(x, z % 2, EvenBits(z / 4));
      Halves(y, z / 2 % 2, OddBits(z / 4));
      Halves(z, z % 2, z / 2);
      Halves(z / 2, z / 2 % 2, z / 4);
    }
  }

  lemma {:induction false} InterleaveBound(n: nat, x: nat, y: nat)
    requires x < Pow2(n) && y < Pow2(n)
    ensures Interleave(x, y) < Pow2(2 * n)
  {
    if n == 0 {
    } else {
      InterleaveBound(n - 1, x / 2, y / 2);
      assert Pow2(2 * n) == 4 * Pow2(2 * (n - 1));
    }
  }

  lemma {:induction false} DeinterleaveBound(n: nat, z: nat)
    requires z < Pow2(2 * n)
    ensures EvenBits(z) < Pow2(n) && OddBits(z) < Pow2(n)
  {
    if n == 0 {
    } else {
      assert Pow2(2 * n) == 4 * Pow2(2 * (n - 1));
      DeinterleaveBound(n - 1, z / 4);
    }
  }

  function If(b: bool, n: nat): nat {
    if b then n else 0
  }

  /** Seen from the top: the highest bit pair picks the quadrant. */
  lemma {:induction false} InterleaveTop(n: nat, right: bool, lower: bool, x: nat, y: nat)
    requires x < Pow2(n) && y < Pow2(n)
    ensures Interleave(If(right, Pow2(n)) + x, If(lower, Pow2(n)) + y) ==
      If(right, Pow2(2 * n)) + If(lower, 2 * Pow2(2 * n)) + Interleave(x, y)
  {
    hide Interleave, Pow2;
    var x', y' := If(right, Pow2(n)) + x, If(lower, Pow2(n)) + y;
    InterleaveStep(x', y');
    InterleaveStep(x, y);
    PowerStep(n);
    if n > 0 {
      Halves(x', x % 2, If(right, Pow2(n - 1)) + x / 2);
      Halves(y', y % 2, If(lower, Pow2(n - 1)) + y / 2);
      InterleaveTop(n - 1, right, lower, x / 2, y / 2);
    } else {
      Halves(x', If(right, 1), 0);
      Halves(y', If(lower, 1), 0);
      Origin();
    }
  }

  lemma PowerStep(n: nat)
    ensures Pow2(0) == 1
    ensures n > 0 ==> Pow2(n) == 2 * Pow2(n - 1) && Pow2(2 * n) == 4 * Pow2(2 * (n - 1))
  {
    if n > 0 {
      assert Pow2(2 * n) == 2 * Pow2(2 * n - 1);
    }
  }

  /** getZScanIndex: a loop over bit pairs, lowest first. The result has 32 bits, so x and y have 16. */
  method GetZScanIndex(x: nat, y: nat) returns (result: nat)
    requires x < 0x1_0000 && y < 0x1_0000
    ensures result == Interleave(x, y) < 0x1_0000_0000
  {
    hide Shl, Pow2, Or, Interleave;
    var remainingX, remainingY, offset := x, y, 0;
    result := 0;
    Start(Interleave(x, y));
    while remainingX != 0 || remainingY != 0
      invariant Interleave(x, y) == Shl(Interleave(remainingX, remainingY), offset) + result
      invariant result < Pow2(offset)
      decreases remainingX + remainingY
    {
      var pair := Or(Shl(remainingX % 2, offset), Shl(remainingY % 2, offset + 1));
      OrPair(result, remainingX % 2, remainingY % 2, offset);
      InterleaveStep(remainingX, remainingY);
      NextPair(Interleave(remainingX / 2, remainingY / 2), remainingX % 2, remainingY % 2, offset);
      result := Or(result, pair);
      remainingX, remainingY, offset := remainingX / 2, remainingY / 2, offset + 2;
    }
    Origin();
    ShlIsProduct(0, offset);
    Pow2Values();
    InterleaveBound(16, x, y);
  }

  lemma Start(z: nat)
    ensures Shl(z, 0) == z && Pow2(0) == 1
  {
  }

  lemma {:induction false} OrCommutes(a: nat, b: nat)
    ensures Or(a, b) == Or(b, a)
    decreases a + b
  {
    if a == 0 || b == 0 {
    } else {
      OrCommutes(a / 2, b / 2);
    }
  }

  /** Or-ing one bit pair in above the result so far. */
  lemma OrPair(result: nat, b: nat, c: nat, offset: nat)
    requires result < Pow2(offset) && b <= 1 && c <= 1
    ensures var r := Or(result, Or(Shl(b, offset), Shl(c, offset + 1)));
      r == Shl(b + 2 * c, offset) + result && r < Pow2(offset + 2)
  {
    hide Or;
    Pow2Values();
    ShlBound(b, 1, offset);
    OrCommutes(Shl(b, offset), Shl(c, offset + 1));
    OrDisjoint(c, Shl(b, offset), offset + 1);
    ShlShl(c, 1, offset);
    ShlAdd(b, 2 * c, offset);
    OrCommutes(result, Shl(b + 2 * c, offset));
    OrDisjoint(b + 2 * c, result, offset);
    ShlBound(b + 2 * c, 2, offset);
  }

  lemma NextPair(z: nat, b: nat, c: nat, offset: nat)
    ensures Shl(b + 2 * c + 4 * z, offset) == Shl(z, offset + 2) + Shl(b + 2 * c, offset)
  {
    ShlAdd(b + 2 * c, 4 * z, offset);
    ShlShl(z, 2, offset);
    assert Shl(z, 2) == 4 * z by {
      assert Shl(z, 1) == 2 * z;
    }
  }

  // ---------- the recursive table

  /** The entries written below one call: n levels to go, quadrants of side 2^(n-1). */
  function ZTable(n: nat, start: nat, stride: nat): (s: seq<nat>)
    ensures |s| == Pow2(2 * n)
    decreases n
  {
    if n == 0 then [start] else
    var step := Pow2(n - 1);
    assert Pow2(2 * n) == 4 * Pow2(2 * (n - 1));
    ZTable(n - 1, start, stride) + ZTable(n - 1, start + step, stride) +
    ZTable(n - 1, start + step * stride, stride) + ZTable(n - 1, start + step * stride + step, stride)
  }

  /** The four quadrants of a table. */
  lemma Quadrant(n: nat, start: nat, stride: nat, right: bool, lower: bool, r: nat)
    requires n > 0 && r < Pow2(2 * (n - 1))
    ensures If(right, Pow2(2 * (n - 1))) + If(lower, 2 * Pow2(2 * (n - 1))) + r < Pow2(2 * n)
    ensures ZTable(n, start, stride)[If(right, Pow2(2 * (n - 1))) + If(lower, 2 * Pow2(2 * (n - 1))) + r] ==
      ZTable(n - 1, start + If(lower, Pow2(n - 1) * stride) + If(right, Pow2(n - 1)), stride)[r]
  {
    hide ZTable, Pow2;
    PowerStep(n);
    Levels(n + 1, 1, start, stride);
    var step, m := Pow2(n - 1), Pow2(2 * (n - 1));
    var a, b := ZTable(n - 1, start, stride), ZTable(n - 1, start + step, stride);
    var c, d := ZTable(n - 1, start + step * stride, stride), ZTable(n - 1, start + step * stride + step, stride);
    FourPieces(a, b, c, d, m, r);
  }

  lemma FourPieces(a: seq<nat>, b: seq<nat>, c: seq<nat>, d: seq<nat>, m: nat, r: nat)
    requires |a| == |b| == |c| == |d| == m && r < m
    ensures var s := a + b + c + d;
      |s| == 4 * m && s[r] == a[r] && s[m + r] == b[r] && s[2 * m + r] == c[r] && s[3 * m + r] == d[r]
  {
  }

  /** The table at the interleaved index of (x, y) holds y * stride + x. */
  lemma {:induction false} ZTableAt(n: nat, start: nat, stride: nat, x: nat, y: nat)
    requires x < Pow2(n) && y < Pow2(n)
    ensures Interleave(x, y) < Pow2(2 * n)
    ensures ZTable(n, start, stride)[Interleave(x, y)] == start + y * stride + x
    decreases n
  {
    hide ZTable, Interleave;
    InterleaveBound(n, x, y);
    if n == 0 {
      OneEntry(start, stride);
      Origin();
    } else {
      var half := Pow2(n - 1);
      var right, lower := half <= x, half <= y;
      var x', y' := x - If(right, half), y - If(lower, half);
      InterleaveTop(n - 1, right, lower, x', y');
      InterleaveBound(n - 1, x', y');
      Quadrant(n, start, stride, right, lower, Interleave(x', y'));
      ZTableAt(n - 1, start + If(lower, half * stride) + If(right, half), stride, x', y');
      Distribute(y', If(lower, half), stride);
    }
  }

  lemma Distribute(a: nat, b: nat, m: nat)
    ensures (a + b) * m == a * m + b * m
  {
  }

  lemma Origin()
    ensures Interleave(0, 0) == 0 && EvenBits(0) == 0 && OddBits(0) == 0
  {
  }

  lemma OneEntry(start: nat, stride: nat)
    ensures ZTable(0, start, stride) == [start]
  {
  }

  /** initZscanToRaster: writes below the pointer and returns the pointer moved on. */
  method InitZscanToRaster(maxDepth: nat, depth: nat, startVal: nat, table: array<nat>, cur: nat) returns (next: nat)
    requires 1 <= maxDepth && depth <= maxDepth && cur + Pow2(2 * (maxDepth - depth)) <= table.Length
    modifies table
    ensures next == cur + Pow2(2 * (maxDepth - depth))
    ensures Wrote(old(table[..]), table[..], cur, next, ZTable(maxDepth - depth, startVal, Pow2(maxDepth - 1)))
    decreases maxDepth - depth
  {
    hide ZTable, Shr, Pow2, Wrote;
    ghost var t0 := table[..];
    Levels(maxDepth, depth, startVal, Pow2(maxDepth - 1));
    var stride := Pow2(maxDepth - 1);
    if depth == maxDepth {
      table[cur] := startVal;
      next := cur + 1;
      OneWrite(t0, table[..], cur);
    } else {
      StepIs(maxDepth, depth);
      var step := Shr(stride, depth);
      ghost var m := Pow2(2 * (maxDepth - depth - 1));
      var a := InitZscanToRaster(maxDepth, depth + 1, startVal, table, cur);
      ghost var t1 := table[..];
      var b := InitZscanToRaster(maxDepth, depth + 1, startVal + step, table, a);
      ghost var t2 := table[..];
      var c := InitZscanToRaster(maxDepth, depth + 1, startVal + step * stride, table, b);
      ghost var t3 := table[..];
      next := InitZscanToRaster(maxDepth, depth + 1, startVal + step * stride + step, table, c);
      ghost var n, unit := maxDepth - depth - 1, Pow2(maxDepth - depth - 1);
      FourRuns(t0, t1, t2, t3, table[..], cur, m, ZTable(n, startVal, stride), ZTable(n, startVal + unit, stride),
               ZTable(n, startVal + unit * stride, stride), ZTable(n, startVal + unit * stride + unit, stride));
    }
  }

  lemma OneWrite(s: seq<nat>, t: seq<nat>, i: nat)
    requires i < |s| == |t| && t == s[i := t[i]]
    ensures Wrote(s, t, i, i + 1, [t[i]])
  {
  }

  /** One level of the recursion, on the table as a whole. */
  lemma Levels(maxDepth: nat, depth: nat, start: nat, stride: nat)
    requires depth <= maxDepth
    ensures Pow2(0) == 1 && ZTable(0, start, stride) == [start]
    ensures depth < maxDepth ==>
      var n, step := maxDepth - depth - 1, Pow2(maxDepth - depth - 1);
      ZTable(maxDepth - depth, start, stride) ==
        ZTable(n, start, stride) + ZTable(n, start + step, stride) +
        ZTable(n, start + step * stride, stride) + ZTable(n, start + step * stride + step, stride)
  {
  }

  lemma StepIs(maxDepth: nat, depth: nat)
    requires depth < maxDepth
    ensures Shr(Pow2(maxDepth - 1), depth) == Pow2(maxDepth - depth - 1)
    ensures Pow2(2 * (maxDepth - depth)) == 4 * Pow2(2 * (maxDepth - depth - 1))
  {
    var n := maxDepth - depth - 1;
    Pow2Add(n, depth);
    ShlIsProduct(Pow2(n), depth);
    ShrLowUnique(Pow2(maxDepth - 1), depth, Pow2(n), 0);
    assert 2 * (maxDepth - depth) == 2 * n + 2;
  }

  /** t is s with the entries [lo, hi) replaced by run. */
  ghost predicate Wrote(s: seq<nat>, t: seq<nat>, lo: nat, hi: nat, run: seq<nat>) {
    lo <= hi <= |s| == |t| && t[..lo] == s[..lo] && t[lo..hi] == run && t[hi..] == s[hi..]
  }

  /** Four consecutive runs of m entries make one. */
  lemma FourRuns(t0: seq<nat>, t1: seq<nat>, t2: seq<nat>, t3: seq<nat>, t4: seq<nat>, cur: nat, m: nat,
                 a: seq<nat>, b: seq<nat>, c: seq<nat>, d: seq<nat>)
    requires Wrote(t0, t1, cur, cur + m, a) && Wrote(t1, t2, cur + m, cur + 2 * m, b)
    requires Wrote(t2, t3, cur + 2 * m, cur + 3 * m, c) && Wrote(t3, t4, cur + 3 * m, cur + 4 * m, d)
    ensures Wrote(t0, t4, cur, cur + 4 * m, a + b + c + d)
  {
    TwoRuns(t0, t1, t2, cur, cur + m, cur + 2 * m, a, b);
    TwoRuns(t0, t2, t3, cur, cur + 2 * m, cur + 3 * m, a + b, c);
    TwoRuns(t0, t3, t4, cur, cur + 3 * m, cur + 4 * m, a + b + c, d);
  }

  lemma TwoRuns(s: seq<nat>, t: seq<nat>, u: seq<nat>, lo: nat, mid: nat, hi: nat, a: seq<nat>, b: seq<nat>)
    requires Wrote(s, t, lo, mid, a) && Wrote(t, u, mid, hi, b)
    ensures Wrote(s, u, lo, hi, a + b)
  {
    assert u[..lo] == u[..mid][..lo] == t[..mid][..lo] == t[..lo];
    assert u[lo..mid] == u[..mid][lo..] == t[..mid][lo..] == t[lo..mid];
    assert u[lo..hi] == u[lo..mid] + u[mid..hi];
    assert u[hi..] == t[hi..] == t[mid..][hi - mid..] == s[mid..][hi - mid..] == s[hi..];
  }

  // ---------- permutation and inverse

  /** The table of a block of side 2^n, entry by entry. */
  lemma ZTableEntry(n: nat, z: nat)
    requires z < Pow2(2 * n)
    ensures EvenBits(z) < Pow2(n) && OddBits(z) < Pow2(n)
    ensures ZTable(n, 0, Pow2(n))[z] == Raster(Pow2(n), Cell(OddBits(z), EvenBits(z)))
  {
    DeinterleaveBound(n, z);
    Reinterleave(z);
    ZTableAt(n, 0, Pow2(n), EvenBits(z), OddBits(z));
  }

  lemma SquareSide(n: nat)
    ensures Pow2(2 * n) == Pow2(n) * Pow2(n)
  {
    hide Pow2;
    Pow2Add(n, n);
    assert n + n == 2 * n;
  }

  lemma ZTablePermutation(n: nat)
    ensures Permutation(ZTable(n, 0, Pow2(n)), Pow2(2 * n))
  {
    hide ZTable, Raster, Interleave, EvenBits, OddBits, Pow2;
    var side, t := Pow2(n), ZTable(n, 0, Pow2(n));
    SquareSide(n);
    forall z | 0 <= z < Pow2(2 * n) ensures t[z] < Pow2(2 * n) {
      ZTableEntry(n, z);
      RasterBound(side, side, Cell(OddBits(z), EvenBits(z)));
    }
    forall y, z | 0 <= y < z < Pow2(2 * n) ensures t[y] != t[z] {
      ZTableEntry(n, y);
      ZTableEntry(n, z);
      if t[y] == t[z] {
        RasterInjective(side, side, Cell(OddBits(y), EvenBits(y)), Cell(OddBits(z), EvenBits(z)));
        Reinterleave(y);
        Reinterleave(z);
      }
    }
    forall v | 0 <= v < Pow2(2 * n) ensures v in t {
      var c := RasterCell(side, side, v);
      ZTableAt(n, 0, side, c.col, c.line);
      EntryIs(side, c);
      assert t[Interleave(c.col, c.line)] == v;
    }
  }

  lemma EntryIs(side: nat, c: Cell)
    ensures Raster(side, c) == 0 + c.line * side + c.col
  {
  }

  /** The two tables undo each other on 0..n-1. */
  ghost predicate Inverse(to: seq<nat>, from: seq<nat>, n: nat) {
    && n <= |to| && n <= |from|
    && (forall i :: 0 <= i < n ==> to[i] < n && from[to[i]] == i)
    && (forall v :: 0 <= v < n ==> from[v] < n && to[from[v]] == v)
  }

  /** How many parts initRasterToZscan counts along one side. */
  function Parts(size: nat, maxDepth: nat): nat
    requires 1 <= maxDepth && 0 < Shr(size, maxDepth - 1)
  {
    size / Shr(size, maxDepth - 1)
  }

  /** There are never fewer parts than the table has columns. */
  lemma PartsAtLeast(size: nat, maxDepth: nat)
    requires 1 <= maxDepth && 0 < Shr(size, maxDepth - 1)
    ensures Pow2(maxDepth - 1) <= Parts(size, maxDepth)
  {
    var part, side := Shr(size, maxDepth - 1), Pow2(maxDepth - 1);
    ShrLow(size, maxDepth - 1);
    ShlIsProduct(part, maxDepth - 1);
    AtLeastTimes(size, part, side);
  }

  lemma AtLeastTimes(size: nat, part: nat, side: nat)
    requires 0 < part && part * side <= size
    ensures side <= size / part
  {
    Quotient(size, part, size / part, size % part, side);
  }

  lemma Quotient(size: nat, part: nat, q: nat, r: nat, side: nat)
    requires size == part * q + r && r < part && part * side <= size
    ensures side <= q
  {
    if q < side {
      Scale(part, q + 1, side);
      Scale(part, q, side);
    }
  }

  function PartCount(width: nat, height: nat, maxDepth: nat): nat
    requires 1 <= maxDepth && 0 < Shr(width, maxDepth - 1) && 0 < Shr(height, maxDepth - 1)
  {
    Parts(width, maxDepth) * Parts(height, maxDepth)
  }

  lemma PartCountFacts(width: nat, height: nat, maxDepth: nat)
    requires 1 <= maxDepth && 0 < Shr(width, maxDepth - 1) && 0 < Shr(height, maxDepth - 1)
    ensures Pow2(2 * (maxDepth - 1)) <= PartCount(width, height, maxDepth)
    ensures Pow2(2 * (maxDepth - 1)) == PartCount(width, height, maxDepth) <==>
      Parts(width, maxDepth) == Pow2(maxDepth - 1) == Parts(height, maxDepth)
  {
    hide Pow2, Shr, Parts;
    PartsAtLeast(width, maxDepth);
    PartsAtLeast(height, maxDepth);
    SquareSide(maxDepth - 1);
    SquareOrMore(Pow2(maxDepth - 1), Pow2(2 * (maxDepth - 1)), Parts(width, maxDepth), Parts(height, maxDepth));
  }

  lemma SquareOrMore(side: nat, n: nat, p: nat, q: nat)
    requires 0 < side && n == side * side && side <= p && side <= q
    ensures n <= p * q && (n == p * q <==> p == side == q)
  {
    SmallerProduct(side, side, p, q);
  }

  /** Both tables of a block of side 2^(maxDepth - 1), as they are set up together. */
  method BuildZscanTables(maxCUWidth: nat, maxCUHeight: nat, maxDepth: nat)
    returns (zscanToRaster: array<nat>, rasterToZscan: array<nat>)
    requires 1 <= maxDepth && 0 < Shr(maxCUWidth, maxDepth - 1) && 0 < Shr(maxCUHeight, maxDepth - 1)
    requires Parts(maxCUWidth, maxDepth) == Pow2(maxDepth - 1) == Parts(maxCUHeight, maxDepth)
    ensures Permutation(zscanToRaster[..], Pow2(2 * (maxDepth - 1)))
    ensures Inverse(zscanToRaster[..], rasterToZscan[..], Pow2(2 * (maxDepth - 1)))
    ensures forall x, y :: 0 <= x < Pow2(maxDepth - 1) && 0 <= y < Pow2(maxDepth - 1) ==>
      && Interleave(x, y) < zscanToRaster.Length
      && zscanToRaster[Interleave(x, y)] == y * Pow2(maxDepth - 1) + x
  {
    hide ZTable, Interleave, Pow2, Shr, Parts, PartCount, Permutation, Inverse;
    ghost var side, n := Pow2(maxDepth - 1), Pow2(2 * (maxDepth - 1));
    PartCountFacts(maxCUWidth, maxCUHeight, maxDepth);
    var size := Pow2(2 * (maxDepth - 1));
    zscanToRaster, rasterToZscan := new nat[size], new nat[size];
    ghost var before := zscanToRaster[..];
    var end := InitZscanToRaster(maxDepth, 1, 0, zscanToRaster, 0);
    WholeTable(before, zscanToRaster[..], n, ZTable(maxDepth - 1, 0, side));
    assert zscanToRaster[..n] == zscanToRaster[..];
    ZTablePermutation(maxDepth - 1);
    TableBound(zscanToRaster[..], n);
    InitRasterToZscan(maxCUWidth, maxCUHeight, maxDepth, zscanToRaster, rasterToZscan);
    forall x, y | 0 <= x < side && 0 <= y < side
      ensures Interleave(x, y) < n && zscanToRaster[..][Interleave(x, y)] == y * side + x
    {
      ZTableAt(maxDepth - 1, 0, side, x, y);
    }
  }

  lemma TableBound(t: seq<nat>, n: nat)
    requires Permutation(t, n)
    ensures forall i :: 0 <= i < n ==> t[i] < n
  {
  }

  lemma WholeTable(s: seq<nat>, t: seq<nat>, n: nat, run: seq<nat>)
    requires Wrote(s, t, 0, n, run) && |t| == n
    ensures t == run
  {
    assert t[0..n] == t;
  }

  // ---------- the reverse table

  /** Of all places below count that hold a value, the last one is recorded for it. */
  ghost predicate LastWins(to: seq<nat>, from: seq<nat>, count: nat)
    requires count <= |to|
  {
    forall i :: 0 <= i < count && to[i] < |from| && LastPlace(to, count, i) ==> from[to[i]] == i
  }

  /** No place of `to` between i and count holds the value at i again. */
  ghost predicate LastPlace(to: seq<nat>, count: nat, i: nat)
    requires i < count <= |to|
  {
    forall j :: i < j < count ==> to[j] != to[i]
  }

  lemma {:induction false} FindLast(to: seq<nat>, count: nat, i: nat) returns (j: nat)
    requires i < count <= |to|
    ensures i <= j < count && to[j] == to[i] && LastPlace(to, count, j)
    decreases count - i
  {
    if LastPlace(to, count, i) {
      j := i;
    } else {
      var k :| i < k < count && to[k] == to[i];
      j := FindLast(to, count, k);
    }
  }

  /** With a permutation of 0..n-1 in front, the recorded places are its inverse if and only if no
      later place read holds a value below n. */
  lemma InverseIff(to: seq<nat>, from: seq<nat>, n: nat, count: nat)
    requires n <= count <= |to| == |from| && Permutation(to[..n], n) && LastWins(to, from, count)
    ensures Inverse(to, from, n) <==> forall i :: n <= i < count ==> to[i] >= n
  {
    assert forall k :: 0 <= k < n ==> to[k] == to[..n][k];
    if i :| n <= i < count && to[i] < n {
      var j := FindLast(to, count, i);
      assert from[to[j]] == j;
    } else {
      assert forall k :: 0 <= k < n ==> LastPlace(to, count, k);
      forall v | 0 <= v < n ensures from[v] < n && to[from[v]] == v {
        assert v in to[..n];
        var k :| 0 <= k < n && to[..n][k] == v;
        assert to[k] == v;
      }
    }
  }

  /** The Z-scan table of the given length, zero at first, after it was set up for one depth after another. */
  ghost function TableAfter(len: nat, depths: seq<nat>): (t: seq<nat>)
    ensures |t| == len
  {
    if depths == [] then seq(len, _ => 0) else
    var t := TableAfter(len, depths[..|depths| - 1]);
    var d := depths[|depths| - 1];
    if 1 <= d && Pow2(2 * (d - 1)) <= len then
      ZTable(d - 1, 0, Pow2(d - 1)) + t[Pow2(2 * (d - 1))..]
    else t
  }

  /** A table that was set up for any depths, any number of times. */
  ghost predicate SetUp(table: seq<nat>) {
    exists depths :: table == TableAfter(|table|, depths)
  }

  /** The first row of a block. */
  lemma FirstRow(m: nat, x: nat)
    requires x < Pow2(m)
    ensures Interleave(x, 0) < Pow2(2 * m) && ZTable(m, 0, Pow2(m))[Interleave(x, 0)] == x
  {
    hide ZTable, Interleave, Pow2;
    ZTableAt(m, 0, Pow2(m), x, 0);
    EntryIs(Pow2(m), Cell(0, x));
    assert Raster(Pow2(m), Cell(0, x)) == x;
  }

  lemma PowerPlace(k: nat)
    ensures Interleave(Pow2(k), 0) == Pow2(2 * k)
  {
    hide Interleave, Pow2;
    InterleaveTop(k, true, false, 0, 0);
    Origin();
  }

  /** A larger table holds the place right of the first quadrant behind that quadrant. */
  lemma BehindQuadrant(m: nat, k: nat)
    requires k < m
    ensures Pow2(2 * k) < Pow2(2 * m) && ZTable(m, 0, Pow2(m))[Pow2(2 * k)] == Pow2(k)
  {
    hide ZTable, Interleave, Pow2;
    PowerStep(k + 1);
    Pow2Monotone(k + 1, m);
    PowerPlace(k);
    FirstRow(m, Pow2(k));
  }

  /** Whatever was set up before, entry 4^k is zero or 2^k, and no entry exceeds the length. */
  lemma {:induction false} LeftBehind(len: nat, depths: seq<nat>, k: nat)
    requires 0 < len
    ensures Pow2(2 * k) < len ==> TableAfter(len, depths)[Pow2(2 * k)] <= Pow2(k)
    ensures forall i :: 0 <= i < len ==> TableAfter(len, depths)[i] < len
  {
    hide ZTable, Pow2;
    if depths == [] {
    } else {
      var d := depths[|depths| - 1];
      LeftBehind(len, depths[..|depths| - 1], k);
      if 1 <= d && Pow2(2 * (d - 1)) <= len {
        ZTablePermutation(d - 1);
        if k < d - 1 {
          BehindQuadrant(d - 1, k);
        } else {
          Pow2Monotone(2 * (d - 1), 2 * k);
        }
      }
    }
  }

  /** On such a table the first entry behind the current depth is smaller than the current table. */
  lemma TailTooSmall(table: seq<nat>, k: nat)
    requires SetUp(table) && 1 <= k && Pow2(2 * k) < |table|
    ensures table[Pow2(2 * k)] < Pow2(2 * k)
  {
    hide TableAfter;
    var depths :| table == TableAfter(|table|, depths);
    LeftBehind(|table|, depths, k);
    Pow2Add(k, k);
    Pow2Monotone(1, k);
    assert k + k == 2 * k;
    assert Pow2(1) == 2;
    Scale(Pow2(k), 2, Pow2(k));
  }

  /** initRasterToZscan: the later of two places with the same value wins. The reverse table is the
      inverse if and only if no place read behind the current table holds a value of it; on any table
      that was set up by initZscanToRaster, this is if and only if it counts exactly as many parts on
      either side as the table has. */
  method InitRasterToZscan(maxCUWidth: nat, maxCUHeight: nat, maxDepth: nat,
                           zscanToRaster: array<nat>, rasterToZscan: array<nat>)
    requires 1 <= maxDepth && 0 < Shr(maxCUWidth, maxDepth - 1) && 0 < Shr(maxCUHeight, maxDepth - 1)
    requires zscanToRaster != rasterToZscan && zscanToRaster.Length == rasterToZscan.Length
    requires PartCount(maxCUWidth, maxCUHeight, maxDepth) <= zscanToRaster.Length
    requires forall i :: 0 <= i < PartCount(maxCUWidth, maxCUHeight, maxDepth) ==>
      zscanToRaster[i] < rasterToZscan.Length
    requires Pow2(2 * (maxDepth - 1)) <= zscanToRaster.Length
    requires zscanToRaster[..Pow2(2 * (maxDepth - 1))] == ZTable(maxDepth - 1, 0, Pow2(maxDepth - 1))
    modifies rasterToZscan
    ensures LastWins(zscanToRaster[..], rasterToZscan[..], PartCount(maxCUWidth, maxCUHeight, maxDepth))
    ensures Inverse(zscanToRaster[..], rasterToZscan[..], Pow2(2 * (maxDepth - 1))) <==>
      forall i :: Pow2(2 * (maxDepth - 1)) <= i < PartCount(maxCUWidth, maxCUHeight, maxDepth) ==>
        zscanToRaster[i] >= Pow2(2 * (maxDepth - 1))
    ensures SetUp(zscanToRaster[..]) ==>
      (Inverse(zscanToRaster[..], rasterToZscan[..], Pow2(2 * (maxDepth - 1))) <==>
       Parts(maxCUWidth, maxDepth) == Pow2(maxDepth - 1) == Parts(maxCUHeight, maxDepth))
  {
    hide ZTable, Pow2, Shr, Parts, PartCount, Permutation, Inverse, SetUp, LastWins;
    var count := PartCount(maxCUWidth, maxCUHeight, maxDepth);
    ghost var n := Pow2(2 * (maxDepth - 1));
    ZTablePermutation(maxDepth - 1);
    PartCountFacts(maxCUWidth, maxCUHeight, maxDepth);
    FillInverse(zscanToRaster, rasterToZscan, count);
    InverseIff(zscanToRaster[..], rasterToZscan[..], n, count);
    if SetUp(zscanToRaster[..]) && n < count {
      DeeperThanOne(maxCUWidth, maxCUHeight, maxDepth);
      TailTooSmall(zscanToRaster[..], maxDepth - 1);
    }
  }

  /** At depth 1 there is one part, whatever the size. */
  lemma DeeperThanOne(width: nat, height: nat, maxDepth: nat)
    requires 1 <= maxDepth && 0 < Shr(width, maxDepth - 1) && 0 < Shr(height, maxDepth - 1)
    ensures maxDepth == 1 ==> PartCount(width, height, maxDepth) == 1 == Pow2(2 * (maxDepth - 1))
  {
  }

  /** The loop: rasterToZscan[zscanToRaster[i]] = i for i below count. */
  method FillInverse(to: array<nat>, from: array<nat>, count: nat)
    requires to != from && count <= to.Length
    requires forall i :: 0 <= i < count ==> to[i] < from.Length
    modifies from
    ensures LastWins(to[..], from[..], count)
  {
    for i := 0 to count
      invariant LastWins(to[..], from[..], i)
    {
      ghost var before := from[..];
      from[to[i]] := i;
      NextWins(to[..], before, from[..], i);
    }
  }

  lemma NextWins(to: seq<nat>, before: seq<nat>, after: seq<nat>, i: nat)
    requires i < |to| && LastWins(to, before, i) && to[i] < |before| && after == before[to[i] := i]
    ensures LastWins(to, after, i + 1)
  {
    forall k | 0 <= k < i + 1 && to[k] < |after| && LastPlace(to, i + 1, k) ensures after[to[k]] == k {
      if k < i {
        assert to[i] != to[k];
        assert LastPlace(to, i, k);
      }
    }
  }

  /** The sizes for which both tables are set up. */
  datatype Sizes = Sizes(width: nat, height: nat, maxDepth: nat)

  /** The divisions of initRasterToZscan are defined and its loop stays inside tables of length len. */
  predicate Fits(s: Sizes, len: nat) {
    && 1 <= s.maxDepth && 0 < Shr(s.width, s.maxDepth - 1) && 0 < Shr(s.height, s.maxDepth - 1)
    && PartCount(s.width, s.height, s.maxDepth) <= len
  }

  /** Any run of set-ups on the same two tables, with larger and smaller depths in any order: the tables
      are inverse to each other if and only if the part counts of the last sizes fit its depth. */
  method SetUpAll(all: seq<Sizes>, len: nat) returns (zscanToRaster: array<nat>, rasterToZscan: array<nat>)
    requires forall i :: 0 <= i < |all| ==> Fits(all[i], len)
    ensures zscanToRaster.Length == rasterToZscan.Length == len && SetUp(zscanToRaster[..])
    ensures all != [] ==>
      var s := all[|all| - 1];
      Fits(s, len) &&
      (Inverse(zscanToRaster[..], rasterToZscan[..], Pow2(2 * (s.maxDepth - 1))) <==>
       Parts(s.width, s.maxDepth) == Pow2(s.maxDepth - 1) == Parts(s.height, s.maxDepth))
  {
    hide ZTable, Pow2, Shr, Parts, PartCount, Inverse, LastWins, TableAfter, Wrote;
    zscanToRaster, rasterToZscan := new nat[len](_ => 0), new nat[len](_ => 0);
    ghost var depths := [];
    NoDepths(zscanToRaster[..]);
    for i := 0 to |all|
      invariant zscanToRaster.Length == rasterToZscan.Length == len && zscanToRaster != rasterToZscan
      invariant zscanToRaster[..] == TableAfter(len, depths)
      invariant 0 < i ==>
        var s := all[i - 1];
        Fits(s, len) &&
        (Inverse(zscanToRaster[..], rasterToZscan[..], Pow2(2 * (s.maxDepth - 1))) <==>
         Parts(s.width, s.maxDepth) == Pow2(s.maxDepth - 1) == Parts(s.height, s.maxDepth))
    {
      var s := all[i];
      PartCountFacts(s.width, s.height, s.maxDepth);
      ghost var before := zscanToRaster[..];
      var end := InitZscanToRaster(s.maxDepth, 1, 0, zscanToRaster, 0);
      NextDepth(len, depths, s.maxDepth, before, zscanToRaster[..]);
      depths := depths + [s.maxDepth];
      LeftBehind(len, depths, 0);
      assert forall j :: 0 <= j < len ==> zscanToRaster[j] == zscanToRaster[..][j];
      InitRasterToZscan(s.width, s.height, s.maxDepth, zscanToRaster, rasterToZscan);
    }
  }

  lemma NoDepths(table: seq<nat>)
    requires forall i :: 0 <= i < |table| ==> table[i] == 0
    ensures table == TableAfter(|table|, [])
  {
  }

  lemma NextDepth(len: nat, depths: seq<nat>, d: nat, before: seq<nat>, after: seq<nat>)
    requires 1 <= d && Pow2(2 * (d - 1)) <= len && before == TableAfter(len, depths)
    requires Wrote(before, after, 0, Pow2(2 * (d - 1)), ZTable(d - 1, 0, Pow2(d - 1)))
    ensures after == TableAfter(len, depths + [d])
    ensures after[..Pow2(2 * (d - 1))] == ZTable(d - 1, 0, Pow2(d - 1))
  {
    hide ZTable, Pow2;
    var n := Pow2(2 * (d - 1));
    assert (depths + [d])[..|depths|] == depths;
    assert after[..n] == after[0..n];
    assert after == after[..n] + after[n..];
  }

  /** A width that is no multiple of the part width shows more parts than the table has columns: a block
      of 20x20 at depth 4 is read as 10x10 parts. The tables, zero at first, then hold 99 for raster
      position 0, and the inverse is lost. */
  method TooManyParts() returns (zscanToRaster: array<nat>, rasterToZscan: array<nat>)
    ensures zscanToRaster.Length == rasterToZscan.Length == 256
    ensures zscanToRaster[0] == 0 && rasterToZscan[0] == 99
    ensures !Inverse(zscanToRaster[..], rasterToZscan[..], 64)
  {
    hide ZTable, Pow2, Shr, Parts, PartCount, Permutation;
    zscanToRaster, rasterToZscan := new nat[256](_ => 0), new nat[256](_ => 0);
    TwentyByTwenty();
    ghost var before := zscanToRaster[..];
    var end := InitZscanToRaster(4, 1, 0, zscanToRaster, 0);
    FirstRow(3, 0);
    Origin();
    ZTablePermutation(3);
    ZeroTail(before, zscanToRaster[..], 64, ZTable(3, 0, Pow2(3)));
    InitRasterToZscan(20, 20, 4, zscanToRaster, rasterToZscan);
    assert LastPlace(zscanToRaster[..], 100, 99);
    assert zscanToRaster[..][99] == 0 && rasterToZscan[..][0] == 99;
  }

  lemma TwentyByTwenty()
    ensures Shr(20, 3) == 2 && Parts(20, 4) == 10 && PartCount(20, 20, 4) == 100 && Pow2(3) == 8 && Pow2(6) == 64
  {
  }

  lemma ZeroTail(s: seq<nat>, t: seq<nat>, n: nat, run: seq<nat>)
    requires Wrote(s, t, 0, n, run) && Permutation(run, n) && 0 < n
    requires forall i :: 0 <= i < |s| ==> s[i] == 0
    ensures t[..n] == run && t[0] == run[0]
    ensures forall i :: 0 <= i < n ==> t[i] < n
    ensures forall i :: n <= i < |t| ==> t[i] == 0
  {
    assert t[..n] == t[0..n];
    assert forall i :: 0 <= i < n ==> t[i] == run[i];
    assert forall i :: n <= i < |t| ==> t[i] == t[n..][i - n] == s[n..][i - n];
  }
}
