/** The coefficient scan orders: a generator that steps through a block, and the tables built from it. */
module ScanOrder {
  import opened Permutations

  datatype ScanType = Diag | Hor | Ver | Trav

  datatype Cell = Cell(line: nat, col: nat)

  predicate InBlock(w: nat, h: nat, c: Cell) {
    c.line < h && c.col < w
  }

  /** One step of the generator. */
  function Step(t: ScanType, w: nat, h: nat, c: Cell): Cell
    requires 0 < w && 0 < h
  {
    match t
    case Diag =>
      if c.col == w - 1 || c.line == 0 then
        var line := c.line + c.col + 1;
        if line >= h then Cell(h - 1, line - (h - 1)) else Cell(line, 0)
      else Cell(c.line - 1, c.col + 1)
    case Hor => if c.col == w - 1 then Cell(c.line + 1, 0) else Cell(c.line, c.col + 1)
    case Ver => if c.line == h - 1 then Cell(0, c.col + 1) else Cell(c.line + 1, c.col)
    case Trav =>
      if c.line % 2 == 0 then
        if c.col == w - 1 then Cell(c.line + 1, w - 1) else Cell(c.line, c.col + 1)
      else
        if c.col == 0 then Cell(c.line + 1, 0) else Cell(c.line, c.col - 1)
  }

  /** Where a cell lies in an area of the given stride, the block starting at the offset. */
  function IndexOf(c: Cell, stride: nat, offsetX: nat, offsetY: nat): nat {
    (c.line + offsetY) * stride + c.col + offsetX
  }

  class ScanGenerator {
    var line: nat
    var column: nat
    const w: nat
    const h: nat
    const stride: nat
    const scanType: ScanType

    constructor (w: nat, h: nat, stride: nat, scanType: ScanType)
      ensures this.w == w && this.h == h && this.stride == stride && this.scanType == scanType
      ensures line == 0 && column == 0
    {
      line, column := 0, 0;
      this.w, this.h, this.stride, this.scanType := w, h, stride, scanType;
    }

    /** Returns the index of the current cell and moves on. */
    method GetNextIndex(offsetX: nat, offsetY: nat) returns (index: nat)
      requires 0 < w && 0 < h
      modifies this
      ensures index == IndexOf(Cell(old(line), old(column)), stride, offsetX, offsetY)
      ensures Cell(line, column) == Step(scanType, w, h, Cell(old(line), old(column)))
    {
      hide IndexOf;
      index := IndexOf(Cell(line, column), stride, offsetX, offsetY);
      match scanType {
        case Diag =>
          if column == w - 1 || line == 0 {
            line := line + column + 1;
            column := 0;
            if line >= h {
              column := column + (line - (h - 1));
              line := h - 1;
            }
          } else {
            column := column + 1;
            line := line - 1;
          }
        case Hor =>
          if column == w - 1 {
            line := line + 1;
            column := 0;
          } else {
            column := column + 1;
          }
        case Ver =>
          if line == h - 1 {
            column := column + 1;
            line := 0;
          } else {
            line := line + 1;
          }
        case Trav =>
          if line % 2 == 0 {
            if column == w - 1 {
              line := line + 1;
              column := w - 1;
            } else {
              column := column + 1;
            }
          } else {
            if column == 0 {
              line := line + 1;
              column := 0;
            } else {
              column := column - 1;
            }
          }
      }
    }
  }

  // ---------- counting along the diagonals

  function Clamp(x: int, w: nat): nat {
    if x <= 0 then 0 else if x >= w then w else x
  }

  /** The number of cells with line + col < s. */
  function Below(s: nat, w: nat, h: nat): nat {
    if h == 0 then 0 else Below(s, w, h - 1) + Clamp(s - (h - 1), w)
  }

  /** The first column on diagonal s. */
  function FirstCol(s: nat, h: nat): nat
    requires h > 0
  {
    if s < h then 0 else s - (h - 1)
  }

  /** The number of cells on diagonal s. */
  function DiagLength(s: nat, w: nat, h: nat): nat
    requires w > 0 && h > 0
  {
    var last := if s < w then s else w - 1;
    if last < FirstCol(s, h) then 0 else last - FirstCol(s, h) + 1
  }

  lemma {:induction false} BelowNext(s: nat, w: nat, h: nat)
    requires w > 0 && h > 0
    ensures Below(s + 1, w, h) == Below(s, w, h) + DiagLength(s, w, h)
  {
    if h > 1 {
      BelowNext(s, w, h - 1);
    } else {
      assert Below(s, w, 0) == 0 && Below(s + 1, w, 0) == 0;
    }
  }

  lemma {:induction false} BelowAll(s: nat, w: nat, h: nat)
    requires w + h <= s + 1
    ensures Below(s, w, h) == w * h
  {
    if h == 0 {
    } else {
      BelowAll(s, w, h - 1);
      assert w * h == w * (h - 1) + w;
    }
  }

  lemma {:induction false} BelowMonotone(s: nat, t: nat, w: nat, h: nat)
    requires s <= t
    ensures Below(s, w, h) <= Below(t, w, h)
  {
    if h == 0 {
    } else {
      BelowMonotone(s, t, w, h - 1);
    }
  }

  // ---------- the rank of a cell

  /** The number of calls before the generator reaches a cell. */
  function Rank(t: ScanType, w: nat, h: nat, c: Cell): (r: int)
    requires 0 < h
  {
    match t
    case Diag => Below(c.line + c.col, w, h) + c.col - FirstCol(c.line + c.col, h)
    case Hor => c.line * w + c.col
    case Ver => c.col * h + c.line
    case Trav => c.line * w + if c.line % 2 == 0 then c.col else w - 1 - c.col
  }

  lemma RowBound(a: nat, b: nat, n: nat, m: nat)
    requires a < n && b < m
    ensures a * m + b < n * m && (a + 1) * m == a * m + m
  {
    assert (a + 1) * m == a * m + m;
    assert (a + 1) * m <= n * m;
  }

  lemma RowUnique(a: nat, b: nat, c: nat, d: nat, m: nat)
    requires b < m && d < m && a * m + b == c * m + d
    ensures a == c && b == d
  {
    if a < c {
      RowBound(a, b, c, m);
    } else if c < a {
      RowBound(c, d, a, m);
    }
  }

  /** On diagonal s = line + col the ranks run from Below(s) to Below(s + 1). */
  lemma DiagRank(w: nat, h: nat, c: Cell)
    requires InBlock(w, h, c)
    ensures var s := c.line + c.col;
      Below(s, w, h) <= Rank(Diag, w, h, c) < Below(s + 1, w, h) <= w * h
  {
    var s := c.line + c.col;
    BelowNext(s, w, h);
    BelowMonotone(s + 1, w + h - 1, w, h);
    BelowAll(w + h - 1, w, h);
  }

  lemma RankBound(t: ScanType, w: nat, h: nat, c: Cell)
    requires InBlock(w, h, c)
    ensures 0 <= Rank(t, w, h, c) < w * h
  {
    match t
    case Diag => DiagRank(w, h, c);
    case Hor => RowBound(c.line, c.col, h, w);
    case Ver => RowBound(c.col, c.line, w, h);
    case Trav => RowBound(c.line, if c.line % 2 == 0 then c.col else w - 1 - c.col, h, w);
  }

  /** The diagonal scan goes by line + col, then by column. */
  lemma DiagOrder(w: nat, h: nat, a: Cell, b: Cell)
    requires InBlock(w, h, a) && InBlock(w, h, b)
    ensures Rank(Diag, w, h, a) < Rank(Diag, w, h, b) <==>
      a.line + a.col < b.line + b.col || (a.line + a.col == b.line + b.col && a.col < b.col)
  {
    DiagRank(w, h, a);
    DiagRank(w, h, b);
    var s, t := a.line + a.col, b.line + b.col;
    if s < t {
      BelowMonotone(s + 1, t, w, h);
    } else if t < s {
      BelowMonotone(t + 1, s, w, h);
    }
  }

  lemma RowOrder(a: nat, b: nat, c: nat, d: nat, m: nat)
    requires b < m && d < m
    ensures a * m + b < c * m + d <==> a < c || (a == c && b < d)
  {
    if a < c {
      RowBound(a, b, c, m);
    } else if c < a {
      RowBound(c, d, a, m);
    }
  }

  /** The horizontal scan goes by line, then by column. */
  lemma HorOrder(w: nat, h: nat, a: Cell, b: Cell)
    requires InBlock(w, h, a) && InBlock(w, h, b)
    ensures Rank(Hor, w, h, a) < Rank(Hor, w, h, b) <==> a.line < b.line || (a.line == b.line && a.col < b.col)
  {
    RowOrder(a.line, a.col, b.line, b.col, w);
  }

  /** The vertical scan goes by column, then by line. */
  lemma VerOrder(w: nat, h: nat, a: Cell, b: Cell)
    requires InBlock(w, h, a) && InBlock(w, h, b)
    ensures Rank(Ver, w, h, a) < Rank(Ver, w, h, b) <==> a.col < b.col || (a.col == b.col && a.line < b.line)
  {
    RowOrder(a.col, a.line, b.col, b.line, h);
  }

  /** The traverse scan goes by line, forwards on even lines and backwards on odd ones. */
  lemma TravOrder(w: nat, h: nat, a: Cell, b: Cell)
    requires InBlock(w, h, a) && InBlock(w, h, b)
    ensures Rank(Trav, w, h, a) < Rank(Trav, w, h, b) <==>
      a.line < b.line || (a.line == b.line && if a.line % 2 == 0 then a.col < b.col else b.col < a.col)
  {
    var x := if a.line % 2 == 0 then a.col else w - 1 - a.col;
    var y := if b.line % 2 == 0 then b.col else w - 1 - b.col;
    RowOrder(a.line, x, b.line, y, w);
  }

  lemma RankInjective(t: ScanType, w: nat, h: nat, a: Cell, b: Cell)
    requires InBlock(w, h, a) && InBlock(w, h, b) && Rank(t, w, h, a) == Rank(t, w, h, b)
    ensures a == b
  {
    match t
    case Diag =>
      DiagOrder(w, h, a, b);
      DiagOrder(w, h, b, a);
    case Hor => RowUnique(a.line, a.col, b.line, b.col, w);
    case Ver => RowUnique(a.col, a.line, b.col, b.line, h);
    case Trav =>
      var x := if a.line % 2 == 0 then a.col else w - 1 - a.col;
      var y := if b.line % 2 == 0 then b.col else w - 1 - b.col;
      RowUnique(a.line, x, b.line, y, w);
  }

  /** Every step but the last leads to the cell of the next rank, inside the block. */
  lemma StepAdvances(t: ScanType, w: nat, h: nat, c: Cell)
    requires InBlock(w, h, c) && Rank(t, w, h, c) + 1 < w * h
    ensures InBlock(w, h, Step(t, w, h, c)) && Rank(t, w, h, Step(t, w, h, c)) == Rank(t, w, h, c) + 1
  {
    hide Below, FirstCol;
    match t
    case Diag => DiagAdvances(w, h, c);
    case Hor => RowAdvances(c.line, c.col, h, w);
    case Ver => RowAdvances(c.col, c.line, w, h);
    case Trav => RowAdvances(c.line, if c.line % 2 == 0 then c.col else w - 1 - c.col, h, w);
  }

  lemma RowAdvances(a: nat, b: nat, n: nat, m: nat)
    requires a < n && b < m && a * m + b + 1 < n * m
    ensures b == m - 1 ==> a + 1 < n && (a + 1) * m == a * m + b + 1
  {
    RowBound(a, b, n, m);
  }

  lemma DiagAdvances(w: nat, h: nat, c: Cell)
    requires InBlock(w, h, c) && Rank(Diag, w, h, c) + 1 < w * h
    ensures InBlock(w, h, Step(Diag, w, h, c)) && Rank(Diag, w, h, Step(Diag, w, h, c)) == Rank(Diag, w, h, c) + 1
  {
    var s := c.line + c.col;
    BelowNext(s, w, h);
    if s + 1 == w + h - 1 {
      BelowAll(s + 1, w, h);
    }
  }

  // ---------- a whole run

  function Nth(t: ScanType, w: nat, h: nat, n: nat): Cell
    requires 0 < w && 0 < h
  {
    if n == 0 then Cell(0, 0) else Step(t, w, h, Nth(t, w, h, n - 1))
  }

  /** The n-th cell of a run, n < w * h, lies in the block and has rank n. */
  lemma {:induction false} NthRank(t: ScanType, w: nat, h: nat, n: nat)
    requires 0 < w && 0 < h && n < w * h
    ensures InBlock(w, h, Nth(t, w, h, n)) && Rank(t, w, h, Nth(t, w, h, n)) == n
  {
    if n == 0 {
      BelowNone(w, h);
    } else {
      NthRank(t, w, h, n - 1);
      StepAdvances(t, w, h, Nth(t, w, h, n - 1));
    }
  }

  lemma {:induction false} BelowNone(w: nat, h: nat)
    ensures Below(0, w, h) == 0
  {
    if h == 0 {
    } else {
      BelowNone(w, h - 1);
    }
  }

  /** Every cell of the block is visited, at its rank and at no other time. */
  lemma VisitedOnce(t: ScanType, w: nat, h: nat, c: Cell, n: nat)
    requires InBlock(w, h, c) && n < w * h
    ensures 0 <= Rank(t, w, h, c) < w * h
    ensures Nth(t, w, h, n) == c <==> n == Rank(t, w, h, c)
  {
    RankBound(t, w, h, c);
    NthRank(t, w, h, n);
    if n == Rank(t, w, h, c) {
      RankInjective(t, w, h, c, Nth(t, w, h, n));
    }
  }

  function Raster(w: nat, c: Cell): nat {
    c.line * w + c.col
  }

  lemma RasterCell(w: nat, h: nat, x: nat) returns (c: Cell)
    requires 0 < w && x < w * h
    ensures InBlock(w, h, c) && Raster(w, c) == x
  {
    c := Cell(x / w, x % w);
    assert x / w < h by {
      assert x == x / w * w + x % w;
    }
  }

  lemma ScanIsPermutation(t: ScanType, w: nat, h: nat, table: seq<nat>)
    requires 0 < w && 0 < h && |table| == w * h
    requires forall i :: 0 <= i < w * h ==> table[i] == Raster(w, Nth(t, w, h, i))
    ensures Permutation(table, w * h)
  {
    forall i | 0 <= i < w * h ensures table[i] < w * h {
      NthRank(t, w, h, i);
      RowBound(Nth(t, w, h, i).line, Nth(t, w, h, i).col, h, w);
    }
    forall i, j | 0 <= i < j < w * h ensures table[i] != table[j] {
      var a, b := Nth(t, w, h, i), Nth(t, w, h, j);
      NthRank(t, w, h, i);
      NthRank(t, w, h, j);
      if Raster(w, a) == Raster(w, b) {
        RowUnique(a.line, a.col, b.line, b.col, w);
      }
    }
    forall x | 0 <= x < w * h ensures x in table {
      var c := RasterCell(w, h, x);
      RankBound(t, w, h, c);
      var r := Rank(t, w, h, c);
      VisitedOnce(t, w, h, c, r);
      assert table[r] == x;
    }
  }

  lemma NoOffset(w: nat, c: Cell)
    ensures IndexOf(c, w, 0, 0) == Raster(w, c)
  {
  }

  /** The ungrouped scan order of a block. */
  method UngroupedScan(t: ScanType, w: nat, h: nat) returns (table: array<nat>)
    requires 0 < w && 0 < h
    ensures table.Length == w * h && Permutation(table[..], w * h)
    ensures forall i :: 0 <= i < w * h ==> table[i] == Raster(w, Nth(t, w, h, i))
  {
    hide Step, Permutation, IndexOf;
    table := new nat[w * h];
    var scan := new ScanGenerator(w, h, w, t);
    for i := 0 to w * h
      invariant Cell(scan.line, scan.column) == Nth(t, w, h, i)
      invariant scan.w == w && scan.h == h && scan.stride == w && scan.scanType == t
      invariant forall j :: 0 <= j < i ==> table[j] == Raster(w, Nth(t, w, h, j))
    {
      var index := scan.GetNextIndex(0, 0);
      NoOffset(w, Nth(t, w, h, i));
      table[i] := index;
    }
    ScanIsPermutation(t, w, h, table[..]);
  }

  // ---------- grouped scans: 4x4 groups in scan order, each scanned in itself

  /** Entry n of a grouped scan: position n % 16 inside group n / 16. */
  function GroupedCell(t: ScanType, w: nat, h: nat, n: nat): Cell
    requires 4 <= w && 4 <= h
  {
    var g, p := Nth(t, w / 4, h / 4, n / 16), Nth(t, 4, 4, n % 16);
    Cell(4 * g.line + p.line, 4 * g.col + p.col)
  }

  /** The group a cell belongs to, and its place in it. */
  function GroupOf(c: Cell): Cell { Cell(c.line / 4, c.col / 4) }

  function PlaceOf(c: Cell): Cell { Cell(c.line % 4, c.col % 4) }

  lemma GroupCount(w: nat, h: nat)
    requires w % 4 == 0 && h % 4 == 0
    ensures w / 4 * (h / 4) * 16 == w * h
  {
    assert w == 4 * (w / 4) && h == 4 * (h / 4);
  }

  /** Entry n lies in the block, in group Nth(n / 16), at place Nth(n % 16). */
  lemma GroupedInBlock(t: ScanType, w: nat, h: nat, n: nat)
    requires 4 <= w && 4 <= h && n < w / 4 * (h / 4) * 16
    ensures var c := GroupedCell(t, w, h, n);
      InBlock(w, h, c) && GroupOf(c) == Nth(t, w / 4, h / 4, n / 16) && PlaceOf(c) == Nth(t, 4, 4, n % 16)
  {
    NthRank(t, w / 4, h / 4, n / 16);
    NthRank(t, 4, 4, n % 16);
  }

  lemma GroupedInjective(t: ScanType, w: nat, h: nat, m: nat, n: nat)
    requires 4 <= w && 4 <= h && m < w / 4 * (h / 4) * 16 && n < w / 4 * (h / 4) * 16
    requires GroupedCell(t, w, h, m) == GroupedCell(t, w, h, n)
    ensures m == n
  {
    GroupedInBlock(t, w, h, m);
    GroupedInBlock(t, w, h, n);
    NthRank(t, w / 4, h / 4, m / 16);
    NthRank(t, w / 4, h / 4, n / 16);
    NthRank(t, 4, 4, m % 16);
    NthRank(t, 4, 4, n % 16);
  }

  /** Every cell of a block of whole groups is some entry of the run of its group. */
  lemma GroupedReaches(t: ScanType, w: nat, h: nat, c: Cell) returns (n: nat)
    requires InBlock(w, h, c) && w % 4 == 0 && h % 4 == 0
    ensures n < w * h && GroupedCell(t, w, h, n) == c
    ensures n / 16 == Rank(t, w / 4, h / 4, GroupOf(c))
  {
    var wg, hg := w / 4, h / 4;
    RankBound(t, wg, hg, GroupOf(c));
    RankBound(t, 4, 4, PlaceOf(c));
    var g, p := Rank(t, wg, hg, GroupOf(c)), Rank(t, 4, 4, PlaceOf(c));
    n := 16 * g + p;
    GroupCount(w, h);
    VisitedOnce(t, wg, hg, GroupOf(c), g);
    VisitedOnce(t, 4, 4, PlaceOf(c), p);
    assert n / 16 == g && n % 16 == p;
  }

  /** The grouped order of a block of whole groups is a permutation of it. */
  lemma GroupedIsPermutation(t: ScanType, w: nat, h: nat, table: seq<nat>)
    requires 0 < w && 0 < h && w % 4 == 0 && h % 4 == 0 && |table| == w * h
    requires forall i :: 0 <= i < w * h ==> table[i] == Raster(w, GroupedCell(t, w, h, i))
    ensures Permutation(table, w * h)
  {
    hide Raster, GroupedCell;
    GroupCount(w, h);
    forall i | 0 <= i < w * h ensures table[i] < w * h {
      GroupedInBlock(t, w, h, i);
      RasterBound(w, h, GroupedCell(t, w, h, i));
    }
    forall i, j | 0 <= i < j < w * h ensures table[i] != table[j] {
      GroupedInBlock(t, w, h, i);
      GroupedInBlock(t, w, h, j);
      if table[i] == table[j] {
        RasterInjective(w, h, GroupedCell(t, w, h, i), GroupedCell(t, w, h, j));
        GroupedInjective(t, w, h, i, j);
      }
    }
    forall x | 0 <= x < w * h ensures x in table {
      var c := RasterCell(w, h, x);
      var n := GroupedReaches(t, w, h, c);
      assert table[n] == x;
    }
  }

  /** Run g of 16 entries is exactly the g-th group: a cell is in the run if and only if it is in the group. */
  lemma RunIsGroup(t: ScanType, w: nat, h: nat, before: seq<nat>, table: seq<nat>, g: nat, c: Cell)
    requires 0 < w && 0 < h && w % 4 == 0 && h % 4 == 0 && Grouped(t, w, h, before, table)
    requires g < w / 4 * (h / 4) && InBlock(w, h, c)
    ensures 16 * g + 16 <= |table|
    ensures Raster(w, c) in table[16 * g..16 * g + 16] <==> GroupOf(c) == Nth(t, w / 4, h / 4, g)
  {
    hide Raster, GroupedCell, Nth;
    GroupCount(w, h);
    if Raster(w, c) in table[16 * g..16 * g + 16] {
      InRun(t, w, h, table, g, c);
    }
    if GroupOf(c) == Nth(t, w / 4, h / 4, g) {
      InGroup(t, w, h, table, g, c);
    }
  }

  lemma InRun(t: ScanType, w: nat, h: nat, table: seq<nat>, g: nat, c: Cell)
    requires 0 < w && 0 < h && w % 4 == 0 && h % 4 == 0 && |table| == w * h
    requires forall i :: 0 <= i < w * h ==> table[i] == Raster(w, GroupedCell(t, w, h, i))
    requires g < w / 4 * (h / 4) && InBlock(w, h, c) && 16 * g + 16 <= |table|
    requires Raster(w, c) in table[16 * g..16 * g + 16]
    ensures GroupOf(c) == Nth(t, w / 4, h / 4, g)
  {
    hide Raster, GroupedCell, Nth;
    GroupCount(w, h);
    var k :| 0 <= k < 16 && table[16 * g..16 * g + 16][k] == Raster(w, c);
    var i := 16 * g + k;
    GroupedInBlock(t, w, h, i);
    assert table[i] == table[16 * g..16 * g + 16][k];
    RasterInjective(w, h, GroupedCell(t, w, h, i), c);
  }

  lemma InGroup(t: ScanType, w: nat, h: nat, table: seq<nat>, g: nat, c: Cell)
    requires 0 < w && 0 < h && w % 4 == 0 && h % 4 == 0 && |table| == w * h
    requires forall i :: 0 <= i < w * h ==> table[i] == Raster(w, GroupedCell(t, w, h, i))
    requires g < w / 4 * (h / 4) && InBlock(w, h, c) && 16 * g + 16 <= |table|
    requires GroupOf(c) == Nth(t, w / 4, h / 4, g)
    ensures Raster(w, c) in table[16 * g..16 * g + 16]
  {
    hide Raster, GroupedCell, Nth, Rank;
    var n := GroupedReaches(t, w, h, c);
    NthRank(t, w / 4, h / 4, g);
    assert n / 16 == g && 16 * g <= n < 16 * g + 16;
    assert table[16 * g..16 * g + 16][n - 16 * g] == table[n] == Raster(w, c);
  }

  lemma RasterBound(w: nat, h: nat, c: Cell)
    requires InBlock(w, h, c)
    ensures Raster(w, c) < w * h
  {
    RowBound(c.line, c.col, h, w);
  }

  lemma RasterInjective(w: nat, h: nat, a: Cell, b: Cell)
    requires InBlock(w, h, a) && InBlock(w, h, b) && Raster(w, a) == Raster(w, b)
    ensures a == b
  {
    RowUnique(a.line, a.col, b.line, b.col, w);
  }

  /** One group, at the position the outer generator shows: 16 entries from 16 * g on. */
  method ScanGroup(t: ScanType, w: nat, h: nat, g: nat, at: Cell, table: array<nat>)
    requires 4 <= w && 4 <= h && 16 * g + 16 <= table.Length
    requires at == Nth(t, w / 4, h / 4, g)
    modifies table
    ensures forall i :: 0 <= i < table.Length && !(16 * g <= i < 16 * g + 16) ==> table[i] == old(table[i])
    ensures forall i :: 16 * g <= i < 16 * g + 16 ==> table[i] == Raster(w, GroupedCell(t, w, h, i))
  {
    hide Step, IndexOf, Raster;
    var scan := new ScanGenerator(4, 4, w, t);
    for p := 0 to 16
      invariant Cell(scan.line, scan.column) == Nth(t, 4, 4, p)
      invariant scan.w == 4 && scan.h == 4 && scan.stride == w && scan.scanType == t
      invariant forall i :: 0 <= i < table.Length && !(16 * g <= i < 16 * g + p) ==> table[i] == old(table[i])
      invariant forall i :: 16 * g <= i < 16 * g + p ==> table[i] == Raster(w, GroupedCell(t, w, h, i))
    {
      var index := scan.GetNextIndex(4 * at.col, 4 * at.line);
      GroupIndex(w, at, Nth(t, 4, 4, p));
      assert (16 * g + p) / 16 == g && (16 * g + p) % 16 == p;
      table[16 * g + p] := index;
    }
  }

  lemma GroupIndex(w: nat, g: Cell, p: Cell)
    ensures IndexOf(p, w, 4 * g.col, 4 * g.line) == Raster(w, Cell(4 * g.line + p.line, 4 * g.col + p.col))
  {
  }

  /** What a grouped scan makes of a table: the runs of the whole groups, and behind them what was there. */
  ghost predicate Grouped(t: ScanType, w: nat, h: nat, before: seq<nat>, table: seq<nat>) {
    && |before| == |table| == w * h
    && (forall i :: Written(w, h) <= i < w * h ==> table[i] == before[i])
    && (4 <= w && 4 <= h ==>
          forall i :: 0 <= i < w * h && i < Written(w, h) ==> table[i] == Raster(w, GroupedCell(t, w, h, i)))
  }

  /** The number of entries in whole groups. */
  function Written(w: nat, h: nat): nat {
    w / 4 * (h / 4) * 16
  }

  /** The grouped scan order, written into a table of w * h entries whose contents are not known. */
  method GroupedScan(t: ScanType, w: nat, h: nat, table: array<nat>)
    requires 0 < w && 0 < h && table.Length == w * h
    modifies table
    ensures Grouped(t, w, h, old(table[..]), table[..])
    ensures w % 4 == 0 && h % 4 == 0 ==> Permutation(table[..], w * h)
    ensures (forall i :: 0 <= i < w * h ==> old(table[i]) >= w * h) ==>
      (Permutation(table[..], w * h) <==> w % 4 == 0 && h % 4 == 0)
  {
    hide Step, IndexOf, Raster, Permutation, GroupedCell;
    var wg, hg := w / 4, h / 4;
    GroupsFit(w, h);
    var outer := new ScanGenerator(wg, hg, 4, t);
    for g := 0 to wg * hg
      invariant outer.w == wg && outer.h == hg && outer.scanType == t
      invariant 0 < wg && 0 < hg ==> Cell(outer.line, outer.column) == Nth(t, wg, hg, g)
      invariant 0 < wg && 0 < hg ==> forall i :: 0 <= i < 16 * g ==> table[i] == Raster(w, GroupedCell(t, w, h, i))
      invariant forall i :: 16 * g <= i < w * h ==> table[i] == old(table[i])
    {
      NonZero(wg, hg, g);
      ScanGroup(t, w, h, g, Cell(outer.line, outer.column), table);
      var _ := outer.GetNextIndex(0, 0);
    }
    if w % 4 == 0 && h % 4 == 0 {
      GroupedIsPermutation(t, w, h, table[..]);
    } else {
      UnwrittenEntry(t, w, h, old(table[..]), table[..]);
    }
  }

  /** Unless both sides are multiples of 4, the last entry of the table is never written. */
  lemma UnwrittenEntry(t: ScanType, w: nat, h: nat, before: seq<nat>, table: seq<nat>)
    requires 0 < w && 0 < h && !(w % 4 == 0 && h % 4 == 0) && Grouped(t, w, h, before, table)
    ensures Written(w, h) < w * h && table[w * h - 1] == before[w * h - 1]
    ensures before[w * h - 1] >= w * h ==> !Permutation(table, w * h)
  {
    hide Raster, GroupedCell;
    FewerWritten(w, h);
  }

  lemma FewerWritten(w: nat, h: nat)
    requires 0 < w && 0 < h && !(w % 4 == 0 && h % 4 == 0)
    ensures Written(w, h) < w * h
  {
    GroupProduct(w / 4, h / 4);
    SmallerProduct(4 * (w / 4), 4 * (h / 4), w, h);
  }

  lemma GroupProduct(x: nat, y: nat)
    ensures 4 * x * (4 * y) == x * y * 16
  {
  }

  /** All entries are written if and only if both sides are multiples of 4: on a table that held no
      place of the block before, the scan leaves a permutation exactly then. */
  lemma GroupedComplete(t: ScanType, w: nat, h: nat, before: seq<nat>, table: seq<nat>)
    requires 0 < w && 0 < h && Grouped(t, w, h, before, table)
    requires forall i :: 0 <= i < w * h ==> before[i] >= w * h
    ensures Permutation(table, w * h) <==> w % 4 == 0 && h % 4 == 0
    ensures (forall i :: 0 <= i < w * h ==> table[i] != before[i]) <==> w % 4 == 0 && h % 4 == 0
  {
    hide Raster, GroupedCell;
    if w % 4 == 0 && h % 4 == 0 {
      GroupedIsPermutation(t, w, h, table);
    } else {
      UnwrittenEntry(t, w, h, before, table);
    }
  }

  /** A 2x2 block, which has no whole group, keeps whatever its table held. */
  method GroupedTwoByTwo(t: ScanType) returns (table: array<nat>)
    ensures table[..] == [4, 4, 4, 4] && !Permutation(table[..], 4)
  {
    table := new nat[2 * 2](_ => 4);
    GroupedScan(t, 2, 2, table);
    assert table[0] == 4;
  }

  lemma SmallerProduct(a: nat, b: nat, w: nat, h: nat)
    requires a <= w && b <= h && 0 < w && 0 < h
    ensures a * b <= w * h
    ensures a * b == w * h <==> a == w && b == h
  {
    Scale(a, b, h);
    Scale(h, a, w);
    if a < w {
      Scale(h, a + 1, w);
    } else if b < h {
      Scale(w, b + 1, h);
    }
  }

  lemma Scale(c: nat, a: nat, b: nat)
    requires a <= b
    ensures c * a <= c * b && c * (a + 1) == c * a + c
  {
  }

  lemma NonZero(a: nat, b: nat, g: nat)
    requires g < a * b
    ensures 0 < a && 0 < b
  {
  }

  lemma GroupsFit(w: nat, h: nat)
    ensures forall g :: 0 <= g < w / 4 * (h / 4) ==> 16 * g + 16 <= w * h
    ensures w / 4 * (h / 4) * 16 <= w * h
  {
    var a, b := 4 * (w / 4), 4 * (h / 4);
    assert a * b == w / 4 * (h / 4) * 16;
    assert a * b <= a * h <= w * h;
  }
}
