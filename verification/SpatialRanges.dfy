/**
 The decomposition of a quantised query box into Hilbert ranges (decompose_ranges).

 The box is widened to whole coarse cells, each cell is a run of 2^48 consecutive distances, and
 runs that touch are merged.  The result is proved to be exactly the distances of the points whose
 coarse cell meets the box, as sorted ranges that neither overlap nor touch.
 */
module SpatialRanges {
  import opened Powers
  import opened Hilbert

  const DECOMP_BITS: nat := 8
  const SHIFT: nat := HILBERT_ORDER - DECOMP_BITS
  const DECOMP_FULL_SCAN_THRESHOLD: nat := 256 * 16
  const CELL_SPAN: nat := 0x1_0000_0000_0000

  /** An inclusive range of Hilbert distances. */
  datatype Range = Range(lo: nat, hi: nat)

  const FULL_RANGE := Range(0, TWO64 - 1)

  /** A quantised query box, inclusive on all sides. */
  datatype Box = Box(xmin: nat, ymin: nat, xmax: nat, ymax: nat)

  predicate ValidBox(b: Box) {
    b.xmin <= b.xmax < TWO32 && b.ymin <= b.ymax < TWO32
  }

  predicate InBox(b: Box, x: nat, y: nat) {
    b.xmin <= x <= b.xmax && b.ymin <= y <= b.ymax
  }

  /** The number of coarse cells the box meets. */
  function CellCount(b: Box): int {
    (Shr(b.xmax, SHIFT) - Shr(b.xmin, SHIFT) + 1) * (Shr(b.ymax, SHIFT) - Shr(b.ymin, SHIFT) + 1)
  }

  /** The coarse cell (cx, cy) meets the box. */
  predicate CellMeets(b: Box, cx: nat, cy: nat) {
    && Shr(b.xmin, SHIFT) <= cx <= Shr(b.xmax, SHIFT)
    && Shr(b.ymin, SHIFT) <= cy <= Shr(b.ymax, SHIFT)
  }

  /** The point at distance d lies in a coarse cell that meets the box. */
  predicate NearBox(b: Box, d: nat)
    requires d < TWO64
  {
    Concrete();
    var p := PointAt(HILBERT_ORDER, d);
    CellMeets(b, Shr(p.x, SHIFT), Shr(p.y, SHIFT))
  }

  predicate InRanges(rs: seq<Range>, d: nat) {
    exists i :: 0 <= i < |rs| && rs[i].lo <= d <= rs[i].hi
  }

  /** Sorted, disjoint, and never adjacent: between two ranges at least one distance is missing. */
  predicate Separated(rs: seq<Range>) {
    && (forall i :: 0 <= i < |rs| ==> rs[i].lo <= rs[i].hi < TWO64)
    && (forall i, j :: 0 <= i < j < |rs| ==> rs[i].hi + 1 < rs[j].lo)
  }

  // ---- cells as runs of distances ---------------------------------------------------------

  predicate IsCell(cx: nat, cy: nat) {
    cx < 256 && cy < 256
  }

  /** The first distance of a coarse cell's run. */
  function CellBase(cx: nat, cy: nat): (v: nat)
    requires IsCell(cx, cy)
    ensures v % CELL_SPAN == 0 && v + CELL_SPAN <= TWO64
  {
    Concrete();
    Distance(DECOMP_BITS, cx, cy) * CELL_SPAN
  }

  lemma CellBaseIsInjective(cx: nat, cy: nat, cx': nat, cy': nat)
    requires IsCell(cx, cy) && IsCell(cx', cy') && CellBase(cx, cy) == CellBase(cx', cy')
    ensures cx == cx' && cy == cy'
  {
    Concrete();
    DistanceIsInjective(DECOMP_BITS, cx, cy, cx', cy');
  }

  /** Snapping the distance of any point down to a multiple of the span gives its cell's base. */
  lemma SnapToCell(x: nat, y: nat)
    requires x < TWO32 && y < TWO32
    ensures OnGrid(HILBERT_ORDER, x, y) && IsCell(Shr(x, SHIFT), Shr(y, SHIFT))
    ensures Distance(HILBERT_ORDER, x, y) / CELL_SPAN * CELL_SPAN == CellBase(Shr(x, SHIFT), Shr(y, SHIFT))
  {
    hide Pow2, Pow4, Distance, Shr, RunBase;
    Concrete();
    CoarseCell(DECOMP_BITS, SHIFT, x, y);
    RunBaseIsMultiple(Distance(DECOMP_BITS, Shr(x, SHIFT), Shr(y, SHIFT)), SHIFT);
  }

  lemma Pow2Zero()
    ensures Pow2(0) == 1
  {
  }

  lemma {:induction false} ShrOfShl(g: nat, j: nat)
    ensures Shr(g * Pow2(j), j) == g
  {
    hide Pow2;
    if j == 0 {
      Pow2Zero();
    } else {
      Pow2Step(j - 1);
      Twice(g, Pow2(j - 1));
      ShrOfShl(g, j - 1);
    }
  }

  /** A distance lies in the run that starts at v. */
  predicate InRun(v: nat, d: nat) {
    v <= d < v + CELL_SPAN
  }

  /** Multiples of the span whose runs end inside the curve. */
  predicate AreBases(cells: seq<nat>) {
    forall k :: 0 <= k < |cells| ==> cells[k] % CELL_SPAN == 0 && cells[k] + CELL_SPAN <= TWO64
  }

  predicate Covered(cells: seq<nat>, d: nat) {
    exists k :: 0 <= k < |cells| && InRun(cells[k], d)
  }

  /** A cell's run holds exactly the distances of the cell's points. */
  lemma RunHoldsCell(cx: nat, cy: nat, d: nat)
    requires IsCell(cx, cy) && d < TWO64
    ensures Pow4(HILBERT_ORDER) == TWO64
    ensures var p := PointAt(HILBERT_ORDER, d);
            InRun(CellBase(cx, cy), d) <==> cx == Shr(p.x, SHIFT) && cy == Shr(p.y, SHIFT)
  {
    hide Pow2, Pow4, Distance, PointAt, Shr, CellBase;
    Concrete();
    var p := PointAt(HILBERT_ORDER, d);
    DistanceOfPointAt(HILBERT_ORDER, d);
    SnapToCell(p.x, p.y);
    if InRun(CellBase(cx, cy), d) {
      CellBaseIsInjective(cx, cy, Shr(p.x, SHIFT), Shr(p.y, SHIFT));
    }
  }

  ghost predicate SameDistances(rs: seq<Range>, cells: seq<nat>) {
    forall d: nat :: InRanges(rs, d) <==> Covered(cells, d)
  }

  // ---- std::sort on the cell list ---------------------------------------------------------

  predicate Ascending(s: seq<nat>) {
    forall i, j :: 0 <= i < j < |s| ==> s[i] <= s[j]
  }

  predicate Distinct(s: seq<nat>) {
    forall i, j :: 0 <= i < j < |s| ==> s[i] != s[j]
  }

  function Insert(v: nat, s: seq<nat>): (r: seq<nat>)
    requires Ascending(s)
    ensures Ascending(r) && multiset(r) == multiset(s) + multiset{v}
    ensures r != [] && (r[0] == v || (s != [] && r[0] == s[0]))
  {
    if s == [] then [v]
    else if v <= s[0] then
      ConsAscending(v, s);
      [v] + s
    else
      assert s == [s[0]] + s[1..];
      var t := Insert(v, s[1..]);
      ConsAscending(s[0], t);
      [s[0]] + t
  }

  lemma ConsAscending(v: nat, t: seq<nat>)
    requires Ascending(t) && t != [] && v <= t[0]
    ensures Ascending([v] + t)
  {
  }

  function Sort(s: seq<nat>): (r: seq<nat>)
    ensures Ascending(r) && multiset(r) == multiset(s)
  {
    if s == [] then []
    else
      assert s == [s[0]] + s[1..];
      Insert(s[0], Sort(s[1..]))
  }

  lemma {:induction false} DistinctByCount(s: seq<nat>)
    ensures Distinct(s) <==> forall v :: multiset(s)[v] <= 1
  {
    if s != [] {
      var t := s[1..];
      assert s == [s[0]] + t;
      DistinctByCount(t);
      assert Distinct(s) <==> Distinct(t) && s[0] !in t by {
        assert forall i :: 0 < i < |s| ==> s[i] == t[i - 1];
      }
      assert forall v :: multiset(s)[v] == multiset(t)[v] + (if v == s[0] then 1 else 0);
      assert s[0] in t <==> multiset(t)[s[0]] > 0;
      if Distinct(t) && s[0] in t {
        assert multiset(s)[s[0]] > 1;
      }
    }
  }

  lemma SortKeepsDistinct(s: seq<nat>)
    requires Distinct(s)
    ensures Distinct(Sort(s)) && (forall v :: v in Sort(s) <==> v in s)
  {
    DistinctByCount(s);
    DistinctByCount(Sort(s));
    assert forall v :: v in Sort(s) <==> v in multiset(Sort(s));
  }

  // ---- the source's routine ---------------------------------------------------------------

  /** The cells the enumeration has reached when it stands at (gx, gy). */
  predicate Reached(b: Box, gx: nat, gy: nat, cx: nat, cy: nat) {
    IsCell(cx, cy) && CellMeets(b, cx, cy) && (cx < gx || (cx == gx && cy < gy))
  }

  /** v is the base of a reached cell. */
  ghost predicate ReachedBase(b: Box, gx: nat, gy: nat, v: nat) {
    exists cx, cy :: Reached(b, gx, gy, cx, cy) && v == CellBase(cx, cy)
  }

  /** The list holds each reached cell's base once and nothing else. */
  ghost predicate Lists(b: Box, gx: nat, gy: nat, cells: seq<nat>) {
    && Distinct(cells)
    && (forall cx, cy :: Reached(b, gx, gy, cx, cy) ==> CellBase(cx, cy) in cells)
    && (forall k :: 0 <= k < |cells| ==> ReachedBase(b, gx, gy, cells[k]))
  }

  lemma WindowIsOnGrid(b: Box)
    requires ValidBox(b)
    ensures Shr(b.xmin, SHIFT) <= Shr(b.xmax, SHIFT) < 256
    ensures Shr(b.ymin, SHIFT) <= Shr(b.ymax, SHIFT) < 256
  {
    Concrete();
    ShrMonotone(b.xmin, b.xmax, SHIFT);
    ShrMonotone(b.ymin, b.ymax, SHIFT);
    ShrBelow(DECOMP_BITS, SHIFT, b.xmax);
    ShrBelow(DECOMP_BITS, SHIFT, b.ymax);
  }

  /** What is reached at one position is reached at any later one. */
  lemma ReachedBaseLater(b: Box, gx: nat, gy: nat, gx': nat, gy': nat, v: nat)
    requires ReachedBase(b, gx, gy, v)
    requires forall cx, cy :: Reached(b, gx, gy, cx, cy) ==> Reached(b, gx', gy', cx, cy)
    ensures ReachedBase(b, gx', gy', v)
  {
    hide CellMeets, CellBase;
    var cx, cy :| Reached(b, gx, gy, cx, cy) && v == CellBase(cx, cy);
    assert Reached(b, gx', gy', cx, cy);
  }

  lemma BaseIsNew(b: Box, gx: nat, gy: nat)
    requires IsCell(gx, gy)
    ensures !ReachedBase(b, gx, gy, CellBase(gx, gy))
  {
    hide CellBase, Shr;
    forall cx, cy | Reached(b, gx, gy, cx, cy) ensures CellBase(cx, cy) != CellBase(gx, gy) {
      if CellBase(cx, cy) == CellBase(gx, gy) {
        CellBaseIsInjective(cx, cy, gx, gy);
      }
    }
  }

  lemma ReachedStep(b: Box, gx: nat, gy: nat, cx: nat, cy: nat)
    requires IsCell(gx, gy) && CellMeets(b, gx, gy)
    ensures Reached(b, gx, gy + 1, cx, cy) <==> Reached(b, gx, gy, cx, cy) || (cx == gx && cy == gy)
  {
  }

  lemma ListNext(b: Box, gx: nat, gy: nat, cells: seq<nat>)
    requires Lists(b, gx, gy, cells) && IsCell(gx, gy) && CellMeets(b, gx, gy)
    ensures Lists(b, gx, gy + 1, cells + [CellBase(gx, gy)])
  {
    hide CellBase, Reached, ReachedBase, CellMeets;
    var v := CellBase(gx, gy);
    BaseIsNew(b, gx, gy);
    var next := cells + [v];
    forall cx, cy ensures Reached(b, gx, gy + 1, cx, cy) <==> Reached(b, gx, gy, cx, cy) || (cx == gx && cy == gy) {
      ReachedStep(b, gx, gy, cx, cy);
    }
    assert next[|cells|] == v;
    forall k | 0 <= k < |next| ensures ReachedBase(b, gx, gy + 1, next[k]) {
      if k < |cells| {
        ReachedBaseLater(b, gx, gy, gx, gy + 1, cells[k]);
      } else {
        ReachedBaseOf(b, gx, gy + 1, gx, gy);
      }
    }
  }

  lemma ReachedBaseOf(b: Box, gx: nat, gy: nat, cx: nat, cy: nat)
    requires Reached(b, gx, gy, cx, cy)
    ensures ReachedBase(b, gx, gy, CellBase(cx, cy))
  {
  }

  /** Moving from the end of one column to the start of the next reaches nothing new. */
  lemma ListColumn(b: Box, gx: nat, gy: nat, cells: seq<nat>)
    requires Lists(b, gx, gy, cells)
    requires Shr(b.ymax, SHIFT) < gy
    ensures Lists(b, gx + 1, Shr(b.ymin, SHIFT), cells)
  {
    hide Reached, CellBase, ReachedBase, Shr;
    var gy0 := Shr(b.ymin, SHIFT);
    forall cx, cy ensures Reached(b, gx, gy, cx, cy) <==> Reached(b, gx + 1, gy0, cx, cy) {
      ReachedColumn(b, gx, gy, cx, cy);
    }
    forall k | 0 <= k < |cells| ensures ReachedBase(b, gx + 1, gy0, cells[k]) {
      ReachedBaseLater(b, gx, gy, gx + 1, gy0, cells[k]);
    }
  }

  lemma ReachedColumn(b: Box, gx: nat, gy: nat, cx: nat, cy: nat)
    requires Shr(b.ymax, SHIFT) < gy
    ensures Reached(b, gx, gy, cx, cy) <==> Reached(b, gx + 1, Shr(b.ymin, SHIFT), cx, cy)
  {
    hide Shr;
  }

  /** The coarse cells of the box, in enumeration order. */
  method EnumerateCells(b: Box) returns (cells: seq<nat>)
    requires ValidBox(b)
    ensures Distinct(cells) && cells != []
    ensures AreBases(cells)
    ensures forall d: nat :: d < TWO64 ==> (Covered(cells, d) <==> NearBox(b, d))
  {
    hide Shr, CellBase, Distance;
    WindowIsOnGrid(b);
    var gx0, gy0 := Shr(b.xmin, SHIFT), Shr(b.ymin, SHIFT);
    var gx1, gy1 := Shr(b.xmax, SHIFT), Shr(b.ymax, SHIFT);
    cells := [];
    var gx := gx0;
    while gx <= gx1
      invariant gx0 <= gx <= gx1 + 1
      invariant Lists(b, gx, gy0, cells)
    {
      var gy := gy0;
      while gy <= gy1
        invariant gy0 <= gy <= gy1 + 1
        invariant Lists(b, gx, gy, cells)
      {
        CornerInCell(gx, gy);
        var corner := HilbertXy2d64(gx * 0x100_0000, gy * 0x100_0000);
        ListNext(b, gx, gy, cells);
        cells := cells + [corner / CELL_SPAN * CELL_SPAN];
        gy := gy + 1;
      }
      ListColumn(b, gx, gy, cells);
      gx := gx + 1;
    }
    ListCoversBox(b, gx, gy0, cells);
  }

  lemma CornerInCell(gx: nat, gy: nat)
    requires IsCell(gx, gy)
    ensures OnGrid(HILBERT_ORDER, gx * 0x100_0000, gy * 0x100_0000)
    ensures Distance(HILBERT_ORDER, gx * 0x100_0000, gy * 0x100_0000) / CELL_SPAN * CELL_SPAN == CellBase(gx, gy)
  {
    hide Shr, CellBase, Distance;
    Concrete();
    ShrOfShl(gx, SHIFT);
    ShrOfShl(gy, SHIFT);
    SnapToCell(gx * 0x100_0000, gy * 0x100_0000);
  }

  lemma ListCoversBox(b: Box, gx: nat, gy: nat, cells: seq<nat>)
    requires ValidBox(b) && Lists(b, gx, gy, cells) && Shr(b.xmax, SHIFT) < gx
    ensures cells != []
    ensures AreBases(cells)
    ensures forall d: nat :: d < TWO64 ==> (Covered(cells, d) <==> NearBox(b, d))
  {
    hide Shr, CellBase, Distance, PointAt;
    WindowIsOnGrid(b);
    assert Reached(b, gx, gy, Shr(b.xmin, SHIFT), Shr(b.ymin, SHIFT));
    forall d: nat | d < TWO64
      ensures Covered(cells, d) <==> NearBox(b, d)
    {
      if Covered(cells, d) {
        var k :| 0 <= k < |cells| && InRun(cells[k], d);
        var cx, cy :| Reached(b, gx, gy, cx, cy) && cells[k] == CellBase(cx, cy);
        RunHoldsCell(cx, cy, d);
      }
      if NearBox(b, d) {
        Concrete();
        var p := PointAt(HILBERT_ORDER, d);
        var cx, cy := Shr(p.x, SHIFT), Shr(p.y, SHIFT);
        RunHoldsCell(cx, cy, d);
        assert Reached(b, gx, gy, cx, cy);
        var k :| 0 <= k < |cells| && cells[k] == CellBase(cx, cy);
        assert InRun(cells[k], d);
      }
    }
  }

  /** The ranges hold the distance of every point of the box. */
  ghost predicate CoversBox(b: Box, rs: seq<Range>) {
    forall x: nat, y: nat :: InBox(b, x, y) ==>
      OnGrid(HILBERT_ORDER, x, y) && InRanges(rs, Distance(HILBERT_ORDER, x, y))
  }

  /** decompose_ranges */
  method DecomposeRanges(b: Box) returns (out: seq<Range>)
    requires ValidBox(b)
    ensures Separated(out)
    ensures CellCount(b) > DECOMP_FULL_SCAN_THRESHOLD ==> out == [FULL_RANGE]
    ensures CellCount(b) <= DECOMP_FULL_SCAN_THRESHOLD ==>
              forall d: nat :: d < TWO64 ==> (InRanges(out, d) <==> NearBox(b, d))
    ensures CoversBox(b, out)
  {
    hide Shr, NearBox, Distance;
    forall x: nat, y: nat | InBox(b, x, y)
      ensures OnGrid(HILBERT_ORDER, x, y)
      ensures Distance(HILBERT_ORDER, x, y) < TWO64 && NearBox(b, Distance(HILBERT_ORDER, x, y))
    {
      BoxIsNear(b, x, y);
    }
    if CellCount(b) > DECOMP_FULL_SCAN_THRESHOLD {
      out := [FULL_RANGE];
      forall d: nat | d < TWO64 ensures InRanges(out, d) {
        assert out[0].lo <= d <= out[0].hi;
      }
      return;
    }
    var cells := EnumerateCells(b);
    SortKeepsDistinct(cells);
    ghost var listed := cells;
    cells := Sort(cells);
    SameCoverage(listed, cells);
    out := MergeCells(cells);
  }

  lemma SameCoverage(a: seq<nat>, c: seq<nat>)
    requires forall v :: v in a <==> v in c
    ensures forall d: nat :: Covered(a, d) <==> Covered(c, d)
    ensures AreBases(a) ==> AreBases(c)
  {
    forall d: nat | Covered(a, d) ensures Covered(c, d) {
      var k :| 0 <= k < |a| && InRun(a[k], d);
      assert a[k] in c;
      var m :| 0 <= m < |c| && c[m] == a[k];
      assert InRun(c[m], d);
    }
    forall d: nat | Covered(c, d) ensures Covered(a, d) {
      var k :| 0 <= k < |c| && InRun(c[k], d);
      assert c[k] in a;
      var m :| 0 <= m < |a| && a[m] == c[k];
      assert InRun(a[m], d);
    }
    forall k | 0 <= k < |c| ensures c[k] in a {
    }
  }

  /**
   The merging loop.  64-bit additions carry their wrap-around; the loop never reaches it, because
   while a cell is left to merge the current range ends below that cell.
   */
  method MergeCells(cells: seq<nat>) returns (out: seq<Range>)
    requires cells != [] && Ascending(cells) && Distinct(cells)
    requires AreBases(cells)
    ensures Separated(out)
    ensures SameDistances(out, cells)
  {
    out := [];
    FirstRange(cells);
    var range_lo: nat := cells[0];
    var range_hi: nat := (cells[0] + CELL_SPAN - 1) % TWO64;
    assert out + [Range(range_lo, range_hi)] == [Range(cells[0], cells[0] + CELL_SPAN - 1)];
    for i := 1 to |cells|
      invariant range_lo <= range_hi == cells[i - 1] + CELL_SPAN - 1
      invariant Separated(out + [Range(range_lo, range_hi)])
      invariant SameDistances(out + [Range(range_lo, range_hi)], cells[..i])
    {
      var lo := cells[i];
      var hi := (cells[i] + CELL_SPAN - 1) % TWO64;
      assert cells[i - 1] < cells[i];
      assert range_hi + 1 <= lo < TWO64;
      ghost var before := out + [Range(range_lo, range_hi)];
      if lo <= (range_hi + 1) % TWO64 {
        ExtendLast(out, Range(range_lo, range_hi), cells, i);
        if hi > range_hi {
          range_hi := hi;
        }
      } else {
        AppendRange(before, cells, i);
        out := out + [Range(range_lo, range_hi)];
        range_lo := lo;
        range_hi := hi;
      }
    }
    assert cells[..|cells|] == cells;
    out := out + [Range(range_lo, range_hi)];
  }

  lemma CoveredNext(cells: seq<nat>, i: nat, d: nat)
    requires i < |cells|
    ensures Covered(cells[..i + 1], d) <==> Covered(cells[..i], d) || InRun(cells[i], d)
  {
    if Covered(cells[..i + 1], d) {
      var k :| 0 <= k < i + 1 && InRun(cells[..i + 1][k], d);
      if k < i {
        assert InRun(cells[..i][k], d);
      }
    }
    if Covered(cells[..i], d) {
      var k :| 0 <= k < i && InRun(cells[..i][k], d);
      assert InRun(cells[..i + 1][k], d);
    }
    if InRun(cells[i], d) {
      assert InRun(cells[..i + 1][i], d);
    }
  }

  lemma InRangesSnoc(rs: seq<Range>, r: Range, d: nat)
    ensures InRanges(rs + [r], d) <==> InRanges(rs, d) || r.lo <= d <= r.hi
  {
    var all := rs + [r];
    if InRanges(rs, d) {
      var k :| 0 <= k < |rs| && rs[k].lo <= d <= rs[k].hi;
      assert all[k] == rs[k];
    }
    if r.lo <= d <= r.hi {
      assert all[|rs|] == r;
    }
  }

  lemma FirstRange(cells: seq<nat>)
    requires cells != []
    ensures SameDistances([Range(cells[0], cells[0] + CELL_SPAN - 1)], cells[..1])
  {
    var rs := [Range(cells[0], cells[0] + CELL_SPAN - 1)];
    forall d: nat ensures InRanges(rs, d) <==> Covered(cells[..1], d) {
      CoveredNext(cells, 0, d);
      assert InRanges(rs, d) <==> rs[0].lo <= d <= rs[0].hi;
    }
  }

  lemma ExtendLast(out: seq<Range>, r: Range, cells: seq<nat>, i: nat)
    requires i < |cells| && Separated(out + [r])
    requires SameDistances(out + [r], cells[..i])
    requires r.hi + 1 == cells[i] && cells[i] + CELL_SPAN <= TWO64
    ensures Separated(out + [Range(r.lo, cells[i] + CELL_SPAN - 1)])
    ensures SameDistances(out + [Range(r.lo, cells[i] + CELL_SPAN - 1)], cells[..i + 1])
  {
    var w := Range(r.lo, cells[i] + CELL_SPAN - 1);
    var was, now := out + [r], out + [w];
    assert was[|out|] == r;
    assert forall k :: 0 <= k < |out| ==> was[k] == now[k] == out[k];
    assert now[|out|] == w;
    forall d: nat ensures InRanges(now, d) <==> Covered(cells[..i + 1], d) {
      InRangesSnoc(out, r, d);
      InRangesSnoc(out, w, d);
      CoveredNext(cells, i, d);
    }
  }

  lemma AppendRange(rs: seq<Range>, cells: seq<nat>, i: nat)
    requires i < |cells| && Separated(rs) && rs != []
    requires SameDistances(rs, cells[..i])
    requires rs[|rs| - 1].hi + 1 < cells[i] && cells[i] + CELL_SPAN <= TWO64
    ensures Separated(rs + [Range(cells[i], cells[i] + CELL_SPAN - 1)])
    ensures SameDistances(rs + [Range(cells[i], cells[i] + CELL_SPAN - 1)], cells[..i + 1])
  {
    var w := Range(cells[i], cells[i] + CELL_SPAN - 1);
    forall d: nat ensures InRanges(rs + [w], d) <==> Covered(cells[..i + 1], d) {
      InRangesSnoc(rs, w, d);
      CoveredNext(cells, i, d);
    }
  }

  /** Every point of the box is near the box, so its distance is in the ranges. */
  lemma BoxIsNear(b: Box, x: nat, y: nat)
    requires ValidBox(b) && InBox(b, x, y)
    ensures OnGrid(HILBERT_ORDER, x, y) && Distance(HILBERT_ORDER, x, y) < TWO64
    ensures NearBox(b, Distance(HILBERT_ORDER, x, y))
  {
    hide Shr, Distance, PointAt;
    Concrete();
    PointAtDistance(HILBERT_ORDER, x, y);
    ShrMonotone(b.xmin, x, SHIFT);
    ShrMonotone(x, b.xmax, SHIFT);
    ShrMonotone(b.ymin, y, SHIFT);
    ShrMonotone(y, b.ymax, SHIFT);
  }

  /** The points share a coarse cell: a square of 2^24 by 2^24. */
  predicate SameCell(x: nat, y: nat, u: nat, v: nat) {
    x / 0x100_0000 == u / 0x100_0000 && y / 0x100_0000 == v / 0x100_0000
  }

  ghost predicate SharesCell(b: Box, u: nat, v: nat) {
    exists x: nat, y: nat :: InBox(b, x, y) && SameCell(x, y, u, v)
  }

  lemma ShiftDivides(x: nat)
    ensures Shr(x, SHIFT) == x / 0x100_0000
  {
    hide Shr;
    Concrete();
    ShrIs(x, SHIFT, x / 0x100_0000);
  }

  /** A number between the bounds in the block of u, when the bounds' blocks are on either side. */
  lemma InBlock(lo: nat, hi: nat, u: nat) returns (x: nat)
    requires lo <= hi && lo / 0x100_0000 <= u / 0x100_0000 <= hi / 0x100_0000
    ensures lo <= x <= hi && x / 0x100_0000 == u / 0x100_0000
  {
    var start := u / 0x100_0000 * 0x100_0000;
    x := if lo <= start then start else lo;
  }

  /** A distance is near the box exactly when some point of the box shares the coarse cell of its point. */
  lemma NearBoxByPoints(b: Box, d: nat)
    requires ValidBox(b) && d < TWO64
    ensures d < Pow4(HILBERT_ORDER)
    ensures NearBox(b, d) <==> SharesCell(b, PointAt(HILBERT_ORDER, d).x, PointAt(HILBERT_ORDER, d).y)
  {
    hide Shr, PointAt;
    Concrete();
    var p := PointAt(HILBERT_ORDER, d);
    ShiftDivides(p.x);
    ShiftDivides(p.y);
    ShiftDivides(b.xmin);
    ShiftDivides(b.xmax);
    ShiftDivides(b.ymin);
    ShiftDivides(b.ymax);
    if NearBox(b, d) {
      var x := InBlock(b.xmin, b.xmax, p.x);
      var y := InBlock(b.ymin, b.ymax, p.y);
      assert InBox(b, x, y) && SameCell(x, y, p.x, p.y);
    }
  }
}
