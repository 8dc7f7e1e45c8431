/**
 What a spatial query scans.  An entry is keyed by the Hilbert distance of the folded centroid of
 its rectangle (build_key and write_maintain_indexes); a query folds its own corners into a box and
 scans the ranges the box decomposes into (index_read_spatial).  The question is whether an entry
 the query must return is inside a scanned range.
 */
module SpatialIndex {
  import opened Powers
  import opened Bytes
  import opened Doubles
  import opened Hilbert
  import opened SpatialRanges

  /** A bounding rectangle, mbr_t. */
  datatype Mbr = Mbr(xmin: Double, ymin: Double, xmax: Double, ymax: Double)

  predicate FiniteMbr(m: Mbr) {
    Finite(m.xmin) && Finite(m.ymin) && Finite(m.xmax) && Finite(m.ymax)
  }

  predicate OrderedMbr(m: Mbr) {
    FiniteMbr(m) && Value(m.xmin) <= Value(m.xmax) && Value(m.ymin) <= Value(m.ymax)
  }

  datatype Predicate = Intersect | Contain | Within | Equal | Disjoint | Unsupported

  predicate MbrIntersects(a: Mbr, b: Mbr)
    requires FiniteMbr(a) && FiniteMbr(b)
  {
    !(|| Value(a.xmax) < Value(b.xmin) || Value(a.xmin) > Value(b.xmax)
      || Value(a.ymax) < Value(b.ymin) || Value(a.ymin) > Value(b.ymax))
  }

  predicate MbrWithin(a: Mbr, b: Mbr)
    requires FiniteMbr(a) && FiniteMbr(b)
  {
    && Value(a.xmin) >= Value(b.xmin) && Value(a.xmax) <= Value(b.xmax)
    && Value(a.ymin) >= Value(b.ymin) && Value(a.ymax) <= Value(b.ymax)
  }

  predicate MbrEquals(a: Mbr, b: Mbr)
    requires FiniteMbr(a) && FiniteMbr(b)
  {
    && Value(a.xmin) == Value(b.xmin) && Value(a.xmax) == Value(b.xmax)
    && Value(a.ymin) == Value(b.ymin) && Value(a.ymax) == Value(b.ymax)
  }

  /** mbr_predicate */
  predicate MbrPredicate(mode: Predicate, query: Mbr, entry: Mbr)
    requires FiniteMbr(query) && FiniteMbr(entry)
  {
    match mode
    case Intersect => MbrIntersects(entry, query)
    case Contain => MbrWithin(entry, query)
    case Within => MbrWithin(entry, query)
    case Equal => MbrEquals(entry, query)
    case Disjoint => !MbrIntersects(entry, query)
    case Unsupported => false
  }

  /** The point (x, y), in the units of `Value`, is in the rectangle. */
  predicate InRect(m: Mbr, x: int, y: int)
    requires FiniteMbr(m)
  {
    Value(m.xmin) <= x <= Value(m.xmax) && Value(m.ymin) <= y <= Value(m.ymax)
  }

  /** Every point of the first rectangle is in the second. */
  ghost predicate Covered(a: Mbr, b: Mbr)
    requires FiniteMbr(a) && FiniteMbr(b)
  {
    forall x, y :: InRect(a, x, y) ==> InRect(b, x, y)
  }

  /** Some point is in both rectangles. */
  ghost predicate Meet(a: Mbr, b: Mbr)
    requires FiniteMbr(a) && FiniteMbr(b)
  {
    exists x, y :: InRect(a, x, y) && InRect(b, x, y)
  }

  /** What each predicate says of the points of the entry and of the query. */
  ghost predicate SaysOfPoints(mode: Predicate, q: Mbr, e: Mbr)
    requires FiniteMbr(q) && FiniteMbr(e)
  {
    match mode
    case Within => Covered(e, q)
    case Contain => Covered(e, q)
    case Equal => Covered(e, q) && Covered(q, e)
    case Intersect => Meet(e, q)
    case Disjoint => !Meet(e, q)
    case Unsupported => false
  }

  /** The comparisons of sides decide what the predicate says of the points. */
  lemma PredicateByPoints(mode: Predicate, q: Mbr, e: Mbr)
    requires OrderedMbr(q) && OrderedMbr(e)
    ensures MbrPredicate(mode, q, e) <==> SaysOfPoints(mode, q, e)
  {
    hide Value;
    CoveredByCorners(e, q);
    CoveredByCorners(q, e);
    MeetByCorners(e, q);
  }

  lemma CoveredByCorners(a: Mbr, b: Mbr)
    requires OrderedMbr(a) && OrderedMbr(b)
    ensures Covered(a, b) <==>
      && Value(b.xmin) <= Value(a.xmin) && Value(a.xmax) <= Value(b.xmax)
      && Value(b.ymin) <= Value(a.ymin) && Value(a.ymax) <= Value(b.ymax)
  {
    hide Value;
    if Covered(a, b) {
      assert InRect(a, Value(a.xmin), Value(a.ymin)) && InRect(a, Value(a.xmax), Value(a.ymax));
    }
  }

  lemma MeetByCorners(a: Mbr, b: Mbr)
    requires OrderedMbr(a) && OrderedMbr(b)
    ensures Meet(a, b) <==>
      && Value(a.xmin) <= Value(b.xmax) && Value(b.xmin) <= Value(a.xmax)
      && Value(a.ymin) <= Value(b.ymax) && Value(b.ymin) <= Value(a.ymax)
  {
    hide Value;
    var x := if Value(a.xmin) > Value(b.xmin) then Value(a.xmin) else Value(b.xmin);
    var y := if Value(a.ymin) > Value(b.ymin) then Value(a.ymin) else Value(b.ymin);
    assert InRect(a, x, y) && InRect(b, x, y) <==>
      && Value(a.xmin) <= Value(b.xmax) && Value(b.xmin) <= Value(a.xmax)
      && Value(a.ymin) <= Value(b.ymax) && Value(b.ymin) <= Value(a.ymax);
  }

  /** parse_query_mbr on the four doubles in the server's order: inverted corners are swapped. */
  function ParseQueryMbr(x1: Double, x2: Double, y1: Double, y2: Double): (m: Mbr)
    requires Finite(x1) && Finite(x2) && Finite(y1) && Finite(y2)
    ensures OrderedMbr(m)
    ensures multiset{m.xmin, m.xmax} == multiset{x1, x2} && multiset{m.ymin, m.ymax} == multiset{y1, y2}
    ensures Value(x1) <= Value(x2) ==> m.xmin == x1
    ensures Value(y1) <= Value(y2) ==> m.ymin == y1
  {
    var (xmin, xmax) := if Value(x1) > Value(x2) then (x2, x1) else (x1, x2);
    var (ymin, ymax) := if Value(y1) > Value(y2) then (y2, y1) else (y1, y2);
    Mbr(xmin, ymin, xmax, ymax)
  }

  function QueryBox(q: Mbr): Box {
    Box(Fold(q.xmin), Fold(q.ymin), Fold(q.xmax), Fold(q.ymax))
  }

  /** The one shape of an ordered query whose folded corners come out inverted. */
  predicate InvertsZero(lo: Double, hi: Double) {
    lo == PLUS_ZERO && hi == MINUS_ZERO
  }

  /** The box handed to the decomposition honours its min-at-most-max contract exactly then. */
  lemma QueryBoxIsValid(q: Mbr)
    requires OrderedMbr(q)
    ensures ValidBox(QueryBox(q)) <==> !InvertsZero(q.xmin, q.xmax) && !InvertsZero(q.ymin, q.ymax)
  {
    FoldOrder(q.xmin, q.xmax);
    FoldOrder(q.ymin, q.ymax);
  }

  // ---- one axis ---------------------------------------------------------------------------

  /** The coarse column of a coordinate. */
  function Column(v: Double): nat {
    Shr(Fold(v), SHIFT)
  }

  lemma {:induction false} ShrAdd(x: nat, i: nat, j: nat)
    ensures Shr(x, i + j) == Shr(Shr(x, i), j)
    decreases i
  {
    if i > 0 {
      ShrAdd(x / 2, i - 1, j);
    }
  }

  lemma ShrIsDivision(x: nat)
    ensures Shr(x, SHIFT) == x / 0x100_0000
  {
    ShrAdd(x, 8, 16);
    ShrAdd(Shr(x, 8), 8, 8);
    assert Shr(x, 8) == x / 256;
    assert Shr(x / 256, 8) == x / 256 / 256;
    assert Shr(x / 256 / 256, 8) == x / 256 / 256 / 256;
  }

  /**
   The zero clash of one axis: the numeric comparisons take the two zeros for equal, the fold does
   not, and they fall in different columns.
   */
  predicate ZeroClash(qlo: Double, qhi: Double, lo: Double, hi: Double)
    requires Finite(lo) && Finite(hi)
  {
    || (qlo == PLUS_ZERO && lo == MINUS_ZERO && hi == MINUS_ZERO)
    || (qhi == MINUS_ZERO && Value(lo) == 0 == Value(hi) && !(lo == MINUS_ZERO && hi == MINUS_ZERO))
  }

  lemma ZeroPatterns(v: Double)
    requires Finite(v)
    ensures Value(v) == 0 <==> v == PLUS_ZERO || v == MINUS_ZERO
    ensures Value(v) < 0 ==> Negative(v)
    ensures Value(v) > 0 ==> !Negative(v)
  {
    UnitsZero(Magnitude(v));
  }

  /** The zero columns are neighbours but distinct. */
  lemma ZeroColumns()
    ensures Column(PLUS_ZERO) == 0x80 && Column(MINUS_ZERO) == 0x7F
  {
    ShrIsDivision(Fold(PLUS_ZERO));
    ShrIsDivision(Fold(MINUS_ZERO));
  }

  /** The sign of a finite centroid of zero value, from the signs of the edges. */
  lemma ZeroCentroid(lo: Double, hi: Double, r: Double, c: Double)
    requires Finite(lo) && Finite(hi) && Value(lo) <= Value(hi) && Finite(r)
    requires IsSum(lo, hi, r) && IsHalf(r, c)
    ensures Value(lo) >= 0 ==> (c == MINUS_ZERO <==> lo == MINUS_ZERO && hi == MINUS_ZERO)
    ensures Value(hi) <= 0 ==>
              (c == PLUS_ZERO <==> Value(lo) == 0 == Value(hi) && !(lo == MINUS_ZERO && hi == MINUS_ZERO))
  {
    hide Units, OverflowThreshold, Nearest;
    CentroidBetween(lo, hi, r, c);
    ZeroPatterns(lo);
    ZeroPatterns(hi);
    ZeroPatterns(c);
  }

  /** Without overflow the centroid's column is inside the query's columns unless the zeros clash. */
  lemma FiniteColumn(qlo: Double, qhi: Double, lo: Double, hi: Double, r: Double, c: Double)
    requires Finite(qlo) && Finite(qhi) && Finite(lo) && Finite(hi) && Finite(r)
    requires Value(qlo) <= Value(lo) <= Value(hi) <= Value(qhi)
    requires IsSum(lo, hi, r) && IsHalf(r, c)
    ensures Column(qlo) <= Column(c) <= Column(qhi) <==> !ZeroClash(qlo, qhi, lo, hi)
  {
    hide Units, Fold, Shr, IsSum, IsHalf;
    CentroidBetween(lo, hi, r, c);
    ZeroCentroid(lo, hi, r, c);
    ZeroColumns();
    FoldOrder(qlo, c);
    FoldOrder(c, qhi);
    ZeroPatterns(qlo);
    ZeroPatterns(qhi);
    if Fold(qlo) <= Fold(c) {
      ShrMonotone(Fold(qlo), Fold(c), SHIFT);
    }
    if Fold(c) <= Fold(qhi) {
      ShrMonotone(Fold(c), Fold(qhi), SHIFT);
    }
  }

  lemma ColumnBound(v: Double)
    ensures Column(v) <= 0xFF
  {
    ShrIsDivision(Fold(v));
  }

  /** A sum that overflows is of edges so large that they share the column of the infinity. */
  lemma OverflowColumn(qlo: Double, qhi: Double, lo: Double, hi: Double, r: Double, c: Double)
    requires Finite(qlo) && Finite(qhi) && Finite(lo) && Finite(hi) && !Finite(r)
    requires Value(qlo) <= Value(lo) <= Value(hi) <= Value(qhi)
    requires IsSum(lo, hi, r) && IsHalf(r, c)
    ensures Column(qlo) <= Column(c) <= Column(qhi)
    ensures !ZeroClash(qlo, qhi, lo, hi)
  {
    hide Units, OverflowThreshold, Shr;
    TopBinade(Magnitude(lo));
    TopBinade(Magnitude(hi));
    TopBinade(Magnitude(qlo));
    TopBinade(Magnitude(qhi));
    ColumnBound(qlo);
    ColumnBound(qhi);
    ShrIsDivision(Fold(c));
    ShrIsDivision(Fold(qlo));
    ShrIsDivision(Fold(qhi));
  }

  /**
   One axis of the completeness argument, exactly: an interval inside the query interval has its
   centroid in the query's columns if and only if the zeros do not clash.  Overflow of the sum does
   no harm.
   */
  lemma AxisColumn(qlo: Double, qhi: Double, lo: Double, hi: Double, c: Double)
    requires Finite(qlo) && Finite(qhi) && Finite(lo) && Finite(hi)
    requires Value(qlo) <= Value(lo) <= Value(hi) <= Value(qhi)
    requires IsCentroid(lo, hi, c)
    ensures Column(qlo) <= Column(c) <= Column(qhi) <==> !ZeroClash(qlo, qhi, lo, hi)
  {
    hide Units, Fold, Shr, IsSum, IsHalf;
    var r: Double :| IsSum(lo, hi, r) && IsHalf(r, c);
    if Finite(r) {
      FiniteColumn(qlo, qhi, lo, hi, r, c);
    } else {
      OverflowColumn(qlo, qhi, lo, hi, r, c);
    }
  }

  // ---- keys -------------------------------------------------------------------------------

  const HILBERT_KEY_LEN: nat := 8

  lemma ShrZero(x: nat)
    ensures Shr(x, 0) == x
  {
  }

  lemma ShrByte(x: nat, j: nat)
    ensures Shr(x, j + 8) == Shr(x, j) / 256
  {
    ShrAdd(x, j, 8);
    assert Shr(Shr(x, j), 8) == Shr(x, j) / 256;
  }

  /** encode_hilbert_be */
  method EncodeHilbertBe(h: nat, out: array<byte>)
    requires h < TWO64 && out.Length >= HILBERT_KEY_LEN
    modifies out
    ensures out[..HILBERT_KEY_LEN] == BigEndian(h, HILBERT_KEY_LEN)
    ensures out[HILBERT_KEY_LEN..] == old(out[HILBERT_KEY_LEN..])
  {
    hide Shr;
    ShrZero(h);
    for i := 0 to HILBERT_KEY_LEN
      invariant out[..i] == BigEndian(Shr(h, (HILBERT_KEY_LEN - i) * 8), i)
      invariant out[HILBERT_KEY_LEN..] == old(out[HILBERT_KEY_LEN..])
    {
      ShrByte(h, (HILBERT_KEY_LEN - 1 - i) * 8);
      assert (HILBERT_KEY_LEN - 1 - i) * 8 + 8 == (HILBERT_KEY_LEN - i) * 8;
      out[i] := Shr(h, (HILBERT_KEY_LEN - 1 - i) * 8) % 256;
      assert out[..i + 1] == out[..i] + [out[i]];
    }
  }

  /** decode_hilbert_be, with the wrap-around of the 64-bit shift. */
  method DecodeHilbertBe(in_: seq<byte>) returns (h: nat)
    requires |in_| >= HILBERT_KEY_LEN
    ensures h == FromBigEndian(in_[..HILBERT_KEY_LEN]) < TWO64
  {
    h := 0;
    for i := 0 to HILBERT_KEY_LEN
      invariant h == FromBigEndian(in_[..i])
    {
      assert in_[..i + 1][..i] == in_[..i];
      FromBigEndianBound(in_[..i + 1]);
      Pow256Grows(i + 1, 8);
      h := (h * 256 + in_[i]) % TWO64;
    }
    FromBigEndianBound(in_[..8]);
    ConcreteWidths();
  }

  lemma {:induction false} Pow256Grows(i: nat, n: nat)
    requires i <= n
    ensures Pow256(i) <= Pow256(n)
    ensures n == 8 ==> Pow256(n) == TWO64
  {
    ConcreteWidths();
    if i < n {
      Pow256Grows(i, n - 1);
    }
  }

  /** The Hilbert distance of a centroid. */
  function CentroidDistance(cx: Double, cy: Double): (h: nat)
    ensures h < TWO64
  {
    Concrete();
    Distance(HILBERT_ORDER, Fold(cx), Fold(cy))
  }

  /** build_key */
  function BuildKey(cx: Double, cy: Double, pk: seq<byte>): seq<byte> {
    BigEndian(CentroidDistance(cx, cy), HILBERT_KEY_LEN) + pk
  }

  /** One stored entry: its key, and the rectangle its value holds. */
  datatype Entry = Entry(key: seq<byte>, mbr: Mbr)

  /** The distance an entry's key carries. */
  function EntryDistance(e: Entry): (h: nat)
    requires |e.key| > HILBERT_KEY_LEN
    ensures h < TWO64
  {
    FromBigEndianBound(e.key[..HILBERT_KEY_LEN]);
    ConcreteWidths();
    FromBigEndian(e.key[..HILBERT_KEY_LEN])
  }

  /** The entry write_row stores for a row: keyed by the centroid of its own rectangle. */
  ghost predicate Keyed(e: Entry, cx: Double, cy: Double) {
    && OrderedMbr(e.mbr)
    && IsCentroid(e.mbr.xmin, e.mbr.xmax, cx) && IsCentroid(e.mbr.ymin, e.mbr.ymax, cy)
    && |e.key| > HILBERT_KEY_LEN && e.key == BuildKey(cx, cy, e.key[HILBERT_KEY_LEN..])
  }

  lemma KeyedDistance(e: Entry, cx: Double, cy: Double)
    requires Keyed(e, cx, cy)
    ensures EntryDistance(e) == CentroidDistance(cx, cy)
  {
    hide IsCentroid;
    assert e.key[..HILBERT_KEY_LEN] == BigEndian(CentroidDistance(cx, cy), HILBERT_KEY_LEN);
    ConcreteWidths();
    BigEndianRoundTrip(CentroidDistance(cx, cy), HILBERT_KEY_LEN);
  }

  // ---- what a query scans -----------------------------------------------------------------

  predicate ScansAll(mode: Predicate, q: Mbr) {
    mode.Disjoint? || CellCount(QueryBox(q)) > DECOMP_FULL_SCAN_THRESHOLD
  }

  /** A distance is in the ranges a query scans. */
  predicate Scanned(mode: Predicate, q: Mbr, h: nat)
    requires h < TWO64
  {
    ScansAll(mode, q) || NearBox(QueryBox(q), h)
  }

  lemma NearBoxByColumns(q: Mbr, cx: Double, cy: Double)
    ensures NearBox(QueryBox(q), CentroidDistance(cx, cy)) <==> ColumnsMeet(q, cx, cy)
  {
    hide Fold, Shr, Distance, PointAt;
    Concrete();
    PointAtDistance(HILBERT_ORDER, Fold(cx), Fold(cy));
  }

  /** The coarse columns of the centroid are among those of the query. */
  predicate ColumnsMeet(q: Mbr, cx: Double, cy: Double) {
    Column(q.xmin) <= Column(cx) <= Column(q.xmax) && Column(q.ymin) <= Column(cy) <= Column(q.ymax)
  }

  /**
   What a query of any kind scans, exactly: everything, or the entries whose centroid falls in the
   coarse columns of its box. An intersect query misses a rectangle exactly when its centroid does not.
   */
  lemma ScannedByColumns(mode: Predicate, q: Mbr, e: Entry, cx: Double, cy: Double)
    requires Keyed(e, cx, cy)
    ensures Scanned(mode, q, EntryDistance(e)) <==> ScansAll(mode, q) || ColumnsMeet(q, cx, cy)
  {
    hide IsCentroid, Value, Column, CellCount, NearBox, EntryDistance;
    KeyedDistance(e, cx, cy);
    NearBoxByColumns(q, cx, cy);
  }

  /**
   Completeness of within, contain and equal queries, exactly: an entry that satisfies the
   predicate is in a scanned range if and only if the scan is a full one or neither axis has a
   zero clash.
   */
  lemma WithinIsScanned(mode: Predicate, q: Mbr, e: Entry, cx: Double, cy: Double)
    requires mode.Within? || mode.Contain? || mode.Equal?
    requires OrderedMbr(q) && Keyed(e, cx, cy) && MbrPredicate(mode, q, e.mbr)
    ensures Scanned(mode, q, EntryDistance(e)) <==>
              || ScansAll(mode, q)
              || (&& !ZeroClash(q.xmin, q.xmax, e.mbr.xmin, e.mbr.xmax)
                  && !ZeroClash(q.ymin, q.ymax, e.mbr.ymin, e.mbr.ymax))
  {
    hide IsCentroid, Value, Column, ZeroClash, Scanned, ScansAll, EntryDistance;
    ScannedByColumns(mode, q, e, cx, cy);
    AxisColumn(q.xmin, q.xmax, e.mbr.xmin, e.mbr.xmax, cx);
    AxisColumn(q.ymin, q.ymax, e.mbr.ymin, e.mbr.ymax, cy);
  }

  predicate NoMinusZero(m: Mbr) {
    m.xmin != MINUS_ZERO && m.ymin != MINUS_ZERO && m.xmax != MINUS_ZERO && m.ymax != MINUS_ZERO
  }

  /** In particular nothing is missed among coordinates that are never minus zero. */
  lemma WithinIsComplete(mode: Predicate, q: Mbr, e: Entry, cx: Double, cy: Double)
    requires mode.Within? || mode.Contain? || mode.Equal?
    requires OrderedMbr(q) && NoMinusZero(q) && NoMinusZero(e.mbr)
    requires Keyed(e, cx, cy) && MbrPredicate(mode, q, e.mbr)
    ensures ValidBox(QueryBox(q)) && Scanned(mode, q, EntryDistance(e))
  {
    hide IsCentroid, Scanned, Units, Fold;
    QueryBoxIsValid(q);
    WithinIsScanned(mode, q, e, cx, cy);
  }

  // ---- two concrete queries that miss an entry --------------------------------------------

  const ONE: Double := 0x3FF0_0000_0000_0000
  const TWO: Double := 0x4000_0000_0000_0000
  const THREE: Double := 0x4008_0000_0000_0000
  const FOUR: Double := 0x4010_0000_0000_0000

  lemma ExactIsNearest(n: int, den: int, v: Double)
    requires Finite(v) && n == den * Value(v)
    ensures Nearest(n, den, v)
  {
  }

  lemma SmallValues()
    ensures Value(ONE) == FRACTION * Pow2(1022) && Value(TWO) == 2 * Value(ONE)
    ensures Value(THREE) == 3 * Value(ONE) && Value(FOUR) == 4 * Value(ONE)
    ensures Value(PLUS_ZERO) == 0 == Value(MINUS_ZERO)
    ensures 0 < 4 * Value(ONE) < OverflowThreshold()
  {
    hide Pow2;
    Pow2Step(1022);
    Pow2Step(1023);
    assert ONE / FRACTION == 1023 && ONE % FRACTION == 0;
    assert TWO / FRACTION == 1024 && TWO % FRACTION == 0;
    assert THREE / FRACTION == 1024 && THREE % FRACTION == FRACTION / 2;
    assert FOUR / FRACTION == 1025 && FOUR % FRACTION == 0;
    Pow2Monotone(1023, 2044);
  }

  lemma SmallColumns()
    ensures Column(ONE) == 0xBF && Column(TWO) == 0xC0
  {
    ShrIsDivision(Fold(ONE));
    ShrIsDivision(Fold(TWO));
  }

  lemma UnitSquareIsNotFullScan(q: Mbr)
    requires q == Mbr(PLUS_ZERO, PLUS_ZERO, ONE, ONE)
    ensures CellCount(QueryBox(q)) == DECOMP_FULL_SCAN_THRESHOLD
  {
    hide Fold, Shr;
    SmallColumns();
    ZeroColumns();
  }

  /** The minus-zero point is within [0, 1] x [0, 1] and is not scanned by that query. */
  lemma MinusZeroIsMissed(pk: seq<byte>)
    requires pk != []
    ensures var q := Mbr(PLUS_ZERO, PLUS_ZERO, ONE, ONE);
            var e := Entry(BuildKey(MINUS_ZERO, MINUS_ZERO, pk), Mbr(MINUS_ZERO, MINUS_ZERO, MINUS_ZERO, MINUS_ZERO));
            && Keyed(e, MINUS_ZERO, MINUS_ZERO) && OrderedMbr(q)
            && MbrPredicate(Within, q, e.mbr) && !Scanned(Within, q, EntryDistance(e))
  {
    hide Units, Value, Pow2, Shr, Fold, EntryDistance, Scanned, CellCount, OverflowThreshold, CentroidDistance, Nearest;
    SmallValues();
    ExactIsNearest(0, 1, MINUS_ZERO);
    ExactIsNearest(0, 2, MINUS_ZERO);
    assert IsSum(MINUS_ZERO, MINUS_ZERO, MINUS_ZERO) && IsHalf(MINUS_ZERO, MINUS_ZERO);
    var q := Mbr(PLUS_ZERO, PLUS_ZERO, ONE, ONE);
    var e := Entry(BuildKey(MINUS_ZERO, MINUS_ZERO, pk), Mbr(MINUS_ZERO, MINUS_ZERO, MINUS_ZERO, MINUS_ZERO));
    assert e.key[HILBERT_KEY_LEN..] == pk;
    UnitSquareIsNotFullScan(q);
    WithinIsScanned(Within, q, e, MINUS_ZERO, MINUS_ZERO);
  }

  /**
   Intersect queries are not complete: [1, 3] x [1, 3], keyed by its centroid (2, 2), meets the point
   query [1, 1] x [1, 1] and is not scanned by it.
   */
  lemma IntersectionIsMissed(pk: seq<byte>)
    requires pk != []
    ensures var q, e := Mbr(ONE, ONE, ONE, ONE), Entry(BuildKey(TWO, TWO, pk), Mbr(ONE, ONE, THREE, THREE));
            && Keyed(e, TWO, TWO) && OrderedMbr(q)
            && MbrPredicate(Intersect, q, e.mbr) && !Scanned(Intersect, q, EntryDistance(e))
  {
    hide Units, Pow2, Shr, Fold, EntryDistance, CentroidDistance, NearBox, OverflowThreshold, Nearest;
    SmallValues();
    SmallColumns();
    ExactIsNearest(Value(FOUR), 1, FOUR);
    ExactIsNearest(Value(FOUR), 2, TWO);
    assert IsSum(ONE, THREE, FOUR) && IsHalf(FOUR, TWO);
    var q, e := Mbr(ONE, ONE, ONE, ONE), Entry(BuildKey(TWO, TWO, pk), Mbr(ONE, ONE, THREE, THREE));
    assert e.key[HILBERT_KEY_LEN..] == pk;
    ScannedByColumns(Intersect, q, e, TWO, TWO);
  }
}
