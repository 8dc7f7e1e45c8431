/**
 The well-known-binary reader of the spatial index (wkb_read_point .. compute_mbr).

 A geometry is a tree; Encode lays it out as clause 8 of OGC 06-103r4 does in little-endian order.
 Read* are the reader as functions of the bytes still ahead, and the class WkbReader is the cursor
 code of the source, proved equal to them on every byte string.
 */
module Wkb {
  import opened Bytes
  import opened Optional
  import opened Powers
  import opened Doubles
  import opened SpatialIndex

  const WKB_MAX_POINTS: nat := 1_000_000
  const WKB_MAX_RINGS: nat := 10_000
  const WKB_MAX_GEOMS: nat := 100_000
  const WKB_MAX_RECURSION_DEPTH: nat := 32
  const SRID_SIZE: nat := 4
  const WKB_HEADER_SIZE: nat := 5
  const POINT_DATA_SIZE: nat := 16
  const DBL_MAX: Double := INFINITY - 1

  datatype Pt = Pt(x: Double, y: Double)

  datatype Geometry =
    | Point(p: Pt)
    | LineString(points: seq<Pt>)
    | Polygon(rings: seq<seq<Pt>>)
    | Multi(kind: MultiKind, parts: seq<Geometry>)

  datatype MultiKind = MultiPoint | MultiLineString | MultiPolygon | GeometryCollection

  function Tag(g: Geometry): nat {
    match g
    case Point(_) => 1
    case LineString(_) => 2
    case Polygon(_) => 3
    case Multi(MultiPoint, _) => 4
    case Multi(MultiLineString, _) => 5
    case Multi(MultiPolygon, _) => 6
    case Multi(GeometryCollection, _) => 7
  }

  // ---- the byte layout --------------------------------------------------------------------

  function EncodePoint(p: Pt): (s: seq<byte>)
    ensures |s| == POINT_DATA_SIZE
  {
    LittleEndian(p.x, 8) + LittleEndian(p.y, 8)
  }

  function EncodePoints(ps: seq<Pt>): seq<byte> {
    if ps == [] then [] else EncodePoint(ps[0]) + EncodePoints(ps[1..])
  }

  function EncodeSequence(ps: seq<Pt>): seq<byte> {
    LittleEndian(|ps|, 4) + EncodePoints(ps)
  }

  function EncodeRings(rs: seq<seq<Pt>>): seq<byte> {
    if rs == [] then [] else EncodeSequence(rs[0]) + EncodeRings(rs[1..])
  }

  /** A geometry: byte-order marker, type tag, body. */
  function Encode(g: Geometry): seq<byte>
    decreases g, 1
  {
    [1] + LittleEndian(Tag(g), 4) + Body(g)
  }

  /** The bytes of a geometry behind its header. */
  function Body(g: Geometry): seq<byte>
    decreases g, 0
  {
    match g
    case Point(p) => EncodePoint(p)
    case LineString(ps) => EncodeSequence(ps)
    case Polygon(rs) => LittleEndian(|rs|, 4) + EncodeRings(rs)
    case Multi(_, parts) => LittleEndian(|parts|, 4) + EncodeAll(parts)
  }

  function EncodeAll(gs: seq<Geometry>): seq<byte>
    decreases gs, 0
  {
    if gs == [] then [] else Encode(gs[0]) + EncodeAll(gs[1..])
  }

  /** Every count fits its four-byte field. */
  predicate Encodable(g: Geometry) {
    match g
    case Point(_) => true
    case LineString(ps) => |ps| < TWO32
    case Polygon(rs) => |rs| < TWO32 && forall i :: 0 <= i < |rs| ==> |rs[i]| < TWO32
    case Multi(_, parts) => |parts| < TWO32 && forall i :: 0 <= i < |parts| ==> Encodable(parts[i])
  }

  /** The geometry keeps within the count caps, and within the depth cap when met at this depth. */
  predicate WithinCaps(g: Geometry, depth: nat) {
    && depth <= WKB_MAX_RECURSION_DEPTH
    && match g
       case Point(_) => true
       case LineString(ps) => |ps| <= WKB_MAX_POINTS
       case Polygon(rs) => |rs| <= WKB_MAX_RINGS && forall i :: 0 <= i < |rs| ==> |rs[i]| <= WKB_MAX_POINTS
       case Multi(_, parts) =>
         |parts| <= WKB_MAX_GEOMS && forall i :: 0 <= i < |parts| ==> WithinCaps(parts[i], depth + 1)
  }

  /** The points of a geometry in reading order. */
  function Points(g: Geometry): seq<Pt>
    decreases g, 0
  {
    match g
    case Point(p) => [p]
    case LineString(ps) => ps
    case Polygon(rs) => Flatten(rs)
    case Multi(_, parts) => PointsOfAll(parts)
  }

  function Flatten(rs: seq<seq<Pt>>): seq<Pt> {
    if rs == [] then [] else rs[0] + Flatten(rs[1..])
  }

  function PointsOfAll(gs: seq<Geometry>): seq<Pt>
    decreases gs, 0
  {
    if gs == [] then [] else Points(gs[0]) + PointsOfAll(gs[1..])
  }

  // ---- growing the rectangle --------------------------------------------------------------

  type Rect = m: Mbr | FiniteMbr(m) witness Mbr(PLUS_ZERO, PLUS_ZERO, PLUS_ZERO, PLUS_ZERO)

  predicate FinitePt(p: Pt) {
    Finite(p.x) && Finite(p.y)
  }

  function Grow(m: Rect, p: Pt): Rect {
    if !FinitePt(p) then m
    else
      Mbr(if Value(p.x) < Value(m.xmin) then p.x else m.xmin,
          if Value(p.y) < Value(m.ymin) then p.y else m.ymin,
          if Value(p.x) > Value(m.xmax) then p.x else m.xmax,
          if Value(p.y) > Value(m.ymax) then p.y else m.ymax)
  }

  function GrowAll(m: Rect, ps: seq<Pt>): Rect
    decreases ps
  {
    if ps == [] then m else GrowAll(Grow(m, ps[0]), ps[1..])
  }

  lemma {:induction false} GrowAllConcat(m: Rect, ps: seq<Pt>, qs: seq<Pt>)
    ensures GrowAll(m, ps + qs) == GrowAll(GrowAll(m, ps), qs)
    decreases ps
  {
    if ps == [] {
      assert ps + qs == qs;
    } else {
      assert (ps + qs)[1..] == ps[1..] + qs;
      GrowAllConcat(Grow(m, ps[0]), ps[1..], qs);
    }
  }

  const EMPTY_RECT: Mbr := Mbr(DBL_MAX, DBL_MAX, SIGN + DBL_MAX, SIGN + DBL_MAX)

  // ---- the reader as functions ------------------------------------------------------------

  /** The bytes left and the rectangle grown, or failure. */
  datatype Progress = Failed | Done(rest: seq<byte>, m: Rect)

  function U32(s: seq<byte>): (n: nat)
    requires |s| >= 4
    ensures n < TWO32
  {
    FromLittleEndianBound(s[..4]);
    ConcreteWidths();
    FromLittleEndian(s[..4])
  }

  function ReadDouble(s: seq<byte>): Double
    requires |s| >= 8
  {
    FromLittleEndianBound(s[..8]);
    ConcreteWidths();
    FromLittleEndian(s[..8])
  }

  function ReadPoint(s: seq<byte>, m: Rect): Progress {
    if |s| < POINT_DATA_SIZE then Failed
    else Done(s[POINT_DATA_SIZE..], Grow(m, Pt(ReadDouble(s), ReadDouble(s[8..]))))
  }

  function ReadPoints(s: seq<byte>, n: nat, m: Rect): Progress
    decreases n
  {
    if n == 0 then Done(s, m)
    else
      match ReadPoint(s, m)
      case Failed => Failed
      case Done(rest, m') => ReadPoints(rest, n - 1, m')
  }

  function ReadSequence(s: seq<byte>, m: Rect): Progress {
    if |s| < 4 || U32(s) > WKB_MAX_POINTS then Failed else ReadPoints(s[4..], U32(s), m)
  }

  function ReadRings(s: seq<byte>, n: nat, m: Rect): Progress
    decreases n
  {
    if n == 0 then Done(s, m)
    else
      match ReadSequence(s, m)
      case Failed => Failed
      case Done(rest, m') => ReadRings(rest, n - 1, m')
  }

  function ReadBody(tag: nat, s: seq<byte>, m: Rect, depth: nat): Progress
    requires depth <= WKB_MAX_RECURSION_DEPTH
    decreases WKB_MAX_RECURSION_DEPTH + 1 - depth, 0, 0
  {
    if tag == 1 then ReadPoint(s, m)
    else if tag == 2 then ReadSequence(s, m)
    else if tag == 3 then
      if |s| < 4 || U32(s) > WKB_MAX_RINGS then Failed else ReadRings(s[4..], U32(s), m)
    else if 4 <= tag <= 7 then
      if |s| < 4 || U32(s) > WKB_MAX_GEOMS then Failed
      else ReadGeometries(s[4..], U32(s), m, depth + 1)
    else Failed
  }

  function ReadGeometry(s: seq<byte>, m: Rect, depth: nat): Progress
    requires depth <= WKB_MAX_RECURSION_DEPTH + 1
    decreases WKB_MAX_RECURSION_DEPTH + 1 - depth, 0, 1
  {
    if depth > WKB_MAX_RECURSION_DEPTH || |s| < WKB_HEADER_SIZE then Failed
    else ReadBody(U32(s[1..]), s[WKB_HEADER_SIZE..], m, depth)
  }

  function ReadGeometries(s: seq<byte>, n: nat, m: Rect, depth: nat): Progress
    requires depth <= WKB_MAX_RECURSION_DEPTH + 1
    decreases WKB_MAX_RECURSION_DEPTH + 1 - depth, 1, n
  {
    if n == 0 then Done(s, m)
    else
      match ReadGeometry(s, m, depth)
      case Failed => Failed
      case Done(rest, m') => ReadGeometries(rest, n - 1, m', depth)
  }

  // ---- reading what was encoded -----------------------------------------------------------

  lemma U32OfEncoded(n: nat, rest: seq<byte>)
    requires n < TWO32
    ensures var s := LittleEndian(n, 4) + rest; U32(s) == n && s[4..] == rest
  {
    ConcreteWidths();
    LittleEndianRoundTrip(n, 4);
    assert (LittleEndian(n, 4) + rest)[..4] == LittleEndian(n, 4);
  }

  lemma DoubleOfEncoded(v: Double, rest: seq<byte>)
    ensures var s := LittleEndian(v, 8) + rest; ReadDouble(s) == v && s[8..] == rest
  {
    ConcreteWidths();
    LittleEndianRoundTrip(v, 8);
    assert (LittleEndian(v, 8) + rest)[..8] == LittleEndian(v, 8);
  }

  lemma PointOfEncoded(p: Pt, rest: seq<byte>, m: Rect)
    ensures ReadPoint(EncodePoint(p) + rest, m) == Done(rest, Grow(m, p))
  {
    hide ReadDouble, LittleEndian, Grow;
    var s := EncodePoint(p) + rest;
    DoubleOfEncoded(p.x, LittleEndian(p.y, 8) + rest);
    DoubleOfEncoded(p.y, rest);
    assert s == LittleEndian(p.x, 8) + (LittleEndian(p.y, 8) + rest);
    assert s[POINT_DATA_SIZE..] == rest;
  }

  lemma {:induction false} PointsOfEncoded(ps: seq<Pt>, rest: seq<byte>, m: Rect)
    ensures ReadPoints(EncodePoints(ps) + rest, |ps|, m) == Done(rest, GrowAll(m, ps))
    decreases ps
  {
    hide ReadPoint, EncodePoint, Grow;
    if ps == [] {
      assert EncodePoints(ps) + rest == rest;
    } else {
      var tail := EncodePoints(ps[1..]) + rest;
      assert EncodePoints(ps) + rest == EncodePoint(ps[0]) + tail;
      PointOfEncoded(ps[0], tail, m);
      PointsOfEncoded(ps[1..], rest, Grow(m, ps[0]));
    }
  }

  lemma SequenceOfEncoded(ps: seq<Pt>, rest: seq<byte>, m: Rect)
    requires |ps| < TWO32
    ensures ReadSequence(EncodeSequence(ps) + rest, m)
         == if |ps| <= WKB_MAX_POINTS then Done(rest, GrowAll(m, ps)) else Failed
  {
    hide ReadPoints, U32, LittleEndian, GrowAll, EncodePoints;
    var tail := EncodePoints(ps) + rest;
    assert EncodeSequence(ps) + rest == LittleEndian(|ps|, 4) + tail;
    U32OfEncoded(|ps|, tail);
    PointsOfEncoded(ps, rest, m);
  }

  lemma {:induction false} RingsOfEncoded(rs: seq<seq<Pt>>, rest: seq<byte>, m: Rect)
    requires forall i :: 0 <= i < |rs| ==> |rs[i]| < TWO32
    ensures ReadRings(EncodeRings(rs) + rest, |rs|, m)
         == if (forall i :: 0 <= i < |rs| ==> |rs[i]| <= WKB_MAX_POINTS)
            then Done(rest, GrowAll(m, Flatten(rs))) else Failed
    decreases rs
  {
    hide ReadSequence, EncodeSequence, GrowAll;
    if rs == [] {
      assert EncodeRings(rs) + rest == rest;
      GrowNone(m);
    } else {
      var tail := EncodeRings(rs[1..]) + rest;
      assert EncodeRings(rs) + rest == EncodeSequence(rs[0]) + tail;
      SequenceOfEncoded(rs[0], tail, m);
      RingsOfEncoded(rs[1..], rest, GrowAll(m, rs[0]));
      GrowAllConcat(m, rs[0], Flatten(rs[1..]));
      assert forall i :: 0 < i < |rs| ==> rs[i] == rs[1..][i - 1];
    }
  }

  lemma GrowNone(m: Rect)
    ensures GrowAll(m, []) == m
  {
  }

  /** What reading an encoded geometry must give: its points and the bytes behind it, or failure. */
  function Expected(g: Geometry, rest: seq<byte>, m: Rect, depth: nat): Progress {
    if WithinCaps(g, depth) then Done(rest, GrowAll(m, Points(g))) else Failed
  }

  /**
   The reader inverts the encoding: it consumes exactly the geometry and grows by exactly its
   points when the caps hold, and fails when they do not.
   */
  lemma {:induction false} GeometryOfEncoded(g: Geometry, rest: seq<byte>, m: Rect, depth: nat)
    requires Encodable(g) && depth <= WKB_MAX_RECURSION_DEPTH + 1
    ensures ReadGeometry(Encode(g) + rest, m, depth) == Expected(g, rest, m, depth)
    decreases g, 0
  {
    hide ReadPoint, ReadSequence, ReadRings, ReadGeometries, EncodePoint, EncodeSequence, EncodeRings, EncodeAll,
      U32, LittleEndian, GrowAll;
    var body := Body(g) + rest;
    HeaderOfEncoded(g, rest);
    if depth <= WKB_MAX_RECURSION_DEPTH {
      match g
      case Point(p) =>
        PointOfEncoded(p, rest, m);
        GrowOne(m, p);
      case LineString(ps) =>
        SequenceOfEncoded(ps, rest, m);
      case Polygon(rs) =>
        assert body == LittleEndian(|rs|, 4) + (EncodeRings(rs) + rest);
        U32OfEncoded(|rs|, EncodeRings(rs) + rest);
        RingsOfEncoded(rs, rest, m);
      case Multi(_, parts) =>
        assert body == LittleEndian(|parts|, 4) + (EncodeAll(parts) + rest);
        U32OfEncoded(|parts|, EncodeAll(parts) + rest);
        GeometriesOfEncoded(parts, rest, m, depth + 1);
    }
  }

  lemma HeaderOfEncoded(g: Geometry, rest: seq<byte>)
    ensures var s := Encode(g) + rest;
            && |s| >= WKB_HEADER_SIZE && U32(s[1..]) == Tag(g)
            && s[WKB_HEADER_SIZE..] == Body(g) + rest
  {
    hide LittleEndian, U32, EncodePoint, EncodeSequence, EncodeRings, EncodeAll;
    var s := Encode(g) + rest;
    assert Encode(g) == [1] + LittleEndian(Tag(g), 4) + Body(g);
    assert s[1..] == LittleEndian(Tag(g), 4) + (Body(g) + rest);
    U32OfEncoded(Tag(g), Body(g) + rest);
    assert s[WKB_HEADER_SIZE..] == s[1..][4..];
  }

  lemma GrowOne(m: Rect, p: Pt)
    ensures GrowAll(m, [p]) == Grow(m, p)
  {
    assert [p][1..] == [];
  }

  lemma {:induction false} GeometriesOfEncoded(gs: seq<Geometry>, rest: seq<byte>, m: Rect, depth: nat)
    requires (forall i :: 0 <= i < |gs| ==> Encodable(gs[i])) && depth <= WKB_MAX_RECURSION_DEPTH + 1
    ensures ReadGeometries(EncodeAll(gs) + rest, |gs|, m, depth)
         == if (forall i :: 0 <= i < |gs| ==> WithinCaps(gs[i], depth))
            then Done(rest, GrowAll(m, PointsOfAll(gs))) else Failed
    decreases gs, 0
  {
    hide ReadGeometry, Encode, Body, EncodeAll, PointsOfAll, GrowAll, WithinCaps, Encodable, Points;
    if gs == [] {
      EncodeNone();
      assert EncodeAll(gs) + rest == rest;
      GrowNone(m);
    } else {
      var tail := EncodeAll(gs[1..]) + rest;
      EncodeCons(gs);
      assert EncodeAll(gs) + rest == Encode(gs[0]) + tail;
      GeometryOfEncoded(gs[0], tail, m, depth);
      assert forall i :: 0 <= i < |gs[1..]| ==> gs[1..][i] == gs[i + 1];
      GeometriesOfEncoded(gs[1..], rest, GrowAll(m, Points(gs[0])), depth);
      GrowAllConcat(m, Points(gs[0]), PointsOfAll(gs[1..]));
      CapsOfTail(gs, depth);
    }
  }

  lemma EncodeNone()
    ensures EncodeAll([]) == [] && PointsOfAll([]) == []
  {}

  lemma EncodeCons(gs: seq<Geometry>)
    requires gs != []
    ensures EncodeAll(gs) == Encode(gs[0]) + EncodeAll(gs[1..])
    ensures PointsOfAll(gs) == Points(gs[0]) + PointsOfAll(gs[1..])
  {
    hide Encode, Points;
  }

  lemma CapsOfTail(gs: seq<Geometry>, depth: nat)
    requires gs != []
    ensures (forall i :: 0 <= i < |gs| ==> WithinCaps(gs[i], depth)) <==>
      WithinCaps(gs[0], depth) && forall i :: 0 <= i < |gs[1..]| ==> WithinCaps(gs[1..][i], depth)
  {
    hide WithinCaps;
    assert forall i :: 0 < i < |gs| ==> gs[i] == gs[1..][i - 1];
  }

  // ---- the rectangle is the tightest one --------------------------------------------------

  /** Every finite point lies in the rectangle. */
  predicate Encloses(m: Rect, ps: seq<Pt>) {
    forall i :: 0 <= i < |ps| && FinitePt(ps[i]) ==>
      && Value(m.xmin) <= Value(ps[i].x) <= Value(m.xmax)
      && Value(m.ymin) <= Value(ps[i].y) <= Value(m.ymax)
  }

  /** Each edge passes through a finite point. */
  predicate Touches(m: Rect, ps: seq<Pt>) {
    && (exists i :: 0 <= i < |ps| && FinitePt(ps[i]) && Value(ps[i].x) == Value(m.xmin))
    && (exists i :: 0 <= i < |ps| && FinitePt(ps[i]) && Value(ps[i].x) == Value(m.xmax))
    && (exists i :: 0 <= i < |ps| && FinitePt(ps[i]) && Value(ps[i].y) == Value(m.ymin))
    && (exists i :: 0 <= i < |ps| && FinitePt(ps[i]) && Value(ps[i].y) == Value(m.ymax))
  }

  predicate HasFinite(ps: seq<Pt>) {
    exists i :: 0 <= i < |ps| && FinitePt(ps[i])
  }

  /** Coordinate v is an edge the growth started with, or the x (or y) of a finite point. */
  predicate FromX(v: Double, start: Double, ps: seq<Pt>) {
    v == start || exists i :: 0 <= i < |ps| && FinitePt(ps[i]) && ps[i].x == v
  }

  predicate FromY(v: Double, start: Double, ps: seq<Pt>) {
    v == start || exists i :: 0 <= i < |ps| && FinitePt(ps[i]) && ps[i].y == v
  }

  lemma FromTail(ps: seq<Pt>)
    requires ps != []
    ensures forall v, start :: FromX(v, start, ps[1..]) ==> FromX(v, start, ps)
    ensures forall v, start :: FromY(v, start, ps[1..]) ==> FromY(v, start, ps)
    ensures FinitePt(ps[0]) ==> forall start :: FromX(ps[0].x, start, ps) && FromY(ps[0].y, start, ps)
  {
    var t := ps[1..];
    assert forall i :: 0 <= i < |t| ==> t[i] == ps[i + 1];
    forall v, start | FromX(v, start, t) && v != start ensures FromX(v, start, ps) {
      var i :| 0 <= i < |t| && FinitePt(t[i]) && t[i].x == v;
      assert FinitePt(ps[i + 1]) && ps[i + 1].x == v;
    }
    forall v, start | FromY(v, start, t) && v != start ensures FromY(v, start, ps) {
      var i :| 0 <= i < |t| && FinitePt(t[i]) && t[i].y == v;
      assert FinitePt(ps[i + 1]) && ps[i + 1].y == v;
    }
  }

  /** Growth only moves edges outwards. */
  predicate Contains(outer: Rect, inner: Rect) {
    && Value(outer.xmin) <= Value(inner.xmin) && Value(inner.xmax) <= Value(outer.xmax)
    && Value(outer.ymin) <= Value(inner.ymin) && Value(inner.ymax) <= Value(outer.ymax)
  }

  lemma {:induction false} GrowAllEncloses(m: Rect, ps: seq<Pt>)
    ensures Contains(GrowAll(m, ps), m) && Encloses(GrowAll(m, ps), ps)
    decreases ps
  {
    hide Value;
    if ps != [] {
      GrowAllEncloses(Grow(m, ps[0]), ps[1..]);
      assert forall i :: 0 < i < |ps| ==> ps[i] == ps[1..][i - 1];
    }
  }

  lemma {:induction false} GrowAllTouches(m: Rect, ps: seq<Pt>)
    ensures var r := GrowAll(m, ps);
            && FromX(r.xmin, m.xmin, ps) && FromX(r.xmax, m.xmax, ps)
            && FromY(r.ymin, m.ymin, ps) && FromY(r.ymax, m.ymax, ps)
    decreases ps
  {
    hide Value, FromX, FromY;
    if ps == [] {
      FromStart(m, ps);
    } else {
      var g := Grow(m, ps[0]);
      GrowAllTouches(g, ps[1..]);
      FromTail(ps);
      FromEither(ps, m, g, GrowAll(g, ps[1..]));
    }
  }

  lemma FromStart(m: Rect, ps: seq<Pt>)
    ensures FromX(m.xmin, m.xmin, ps) && FromX(m.xmax, m.xmax, ps)
    ensures FromY(m.ymin, m.ymin, ps) && FromY(m.ymax, m.ymax, ps)
  {
  }

  lemma FromEither(ps: seq<Pt>, m: Rect, g: Rect, r: Rect)
    requires ps != [] && g == Grow(m, ps[0])
    requires FromX(r.xmin, g.xmin, ps[1..]) && FromX(r.xmax, g.xmax, ps[1..])
    requires FromY(r.ymin, g.ymin, ps[1..]) && FromY(r.ymax, g.ymax, ps[1..])
    ensures FromX(r.xmin, m.xmin, ps) && FromX(r.xmax, m.xmax, ps)
    ensures FromY(r.ymin, m.ymin, ps) && FromY(r.ymax, m.ymax, ps)
  {
    hide Value;
    FromTail(ps);
  }

  lemma {:induction false} GrowsNotWithoutFinite(m: Rect, ps: seq<Pt>)
    requires !HasFinite(ps)
    ensures GrowAll(m, ps) == m
    decreases ps
  {
    if ps != [] {
      assert !FinitePt(ps[0]);
      GrowsNotWithoutFinite(m, ps[1..]);
    }
  }

  lemma LargestFinite(v: Double)
    requires Finite(v)
    ensures Value(SIGN + DBL_MAX) <= Value(v) <= Value(DBL_MAX)
    ensures Value(SIGN + DBL_MAX) < Value(DBL_MAX)
  {
    UnitsOrder(Magnitude(v), DBL_MAX);
    UnitsZero(DBL_MAX);
  }

  predicate NonEmptyRect(m: Rect) {
    Value(m.xmin) <= Value(m.xmax) && Value(m.ymin) <= Value(m.ymax)
  }

  /** Grown from the empty rectangle: non-empty exactly when a point is finite, and then tight. */
  lemma TightestRect(ps: seq<Pt>)
    ensures var r := GrowAll(EMPTY_RECT, ps);
            && (NonEmptyRect(r) <==> HasFinite(ps))
            && Encloses(r, ps) && (HasFinite(ps) ==> Touches(r, ps))
  {
    hide Value, GrowAll;
    var r := GrowAll(EMPTY_RECT, ps);
    LargestFinite(DBL_MAX);
    GrowAllEncloses(EMPTY_RECT, ps);
    if HasFinite(ps) {
      var i :| 0 <= i < |ps| && FinitePt(ps[i]);
      LargestFinite(ps[i].x);
      LargestFinite(ps[i].y);
      GrowAllTouches(EMPTY_RECT, ps);
    } else {
      GrowsNotWithoutFinite(EMPTY_RECT, ps);
    }
  }

  /** compute_mbr as a function of the field's bytes. */
  function MbrOf(data: seq<byte>): Option<Rect> {
    if |data| < SRID_SIZE + WKB_HEADER_SIZE then None
    else
      match ReadGeometry(data[SRID_SIZE..], EMPTY_RECT, 0)
      case Failed => None
      case Done(_, m) => if NonEmptyRect(m) then Some(m) else None
  }

  /**
   The rectangle of a stored geometry: there is one exactly when the caps hold and some point is
   finite, and it is the tightest rectangle around the finite points.
   */
  lemma MbrOfEncoded(srid: seq<byte>, g: Geometry, trailing: seq<byte>)
    requires |srid| == SRID_SIZE && Encodable(g)
    ensures var r := MbrOf(srid + Encode(g) + trailing);
            && (r.Some? <==> WithinCaps(g, 0) && HasFinite(Points(g)))
            && (r.Some? ==> Encloses(r.value, Points(g)) && Touches(r.value, Points(g)))
  {
    hide Value, GrowAll, ReadGeometry, Encode, Points, WithinCaps, Encodable, Touches, Encloses, HasFinite;
    var data := srid + Encode(g) + trailing;
    assert data[SRID_SIZE..] == Encode(g) + trailing;
    HeaderOfEncoded(g, trailing);
    GeometryOfEncoded(g, trailing, EMPTY_RECT, 0);
    TightestRect(Points(g));
  }

  // ---- the source's cursor ----------------------------------------------------------------

  /** The cursor and the running rectangle that the wkb_* routines share by reference. */
  class WkbReader {
    const data: seq<byte>
    var p: nat
    var m: Rect

    constructor (data: seq<byte>, start: nat)
      requires start <= |data|
      ensures this.data == data && p == start && m == EMPTY_RECT
    {
      this.data := data;
      p := start;
      m := EMPTY_RECT;
    }

    /** The cursor never passes the end, and ok, p and m report the progress the functions define. */
    ghost predicate Reports(ok: bool, progress: Progress)
      reads this
    {
      p <= |data| && progress == if ok then Done(data[p..], m) else Failed
    }

    method NextPoint() returns (ok: bool)
      requires p <= |data|
      modifies this
      ensures Reports(ok, ReadPoint(old(data[p..]), old(m)))
    {
      hide Value;
      if |data| - p < POINT_DATA_SIZE { return false; }
      var x := ReadDouble(data[p..]);
      var y := ReadDouble(data[p + 8..]);
      assert data[p..][8..] == data[p + 8..] && data[p..][16..] == data[p + 16..];
      p := p + POINT_DATA_SIZE;
      if Finite(x) && Finite(y) {
        if Value(x) < Value(m.xmin) { m := m.(xmin := x); }
        if Value(x) > Value(m.xmax) { m := m.(xmax := x); }
        if Value(y) < Value(m.ymin) { m := m.(ymin := y); }
        if Value(y) > Value(m.ymax) { m := m.(ymax := y); }
      }
      return true;
    }

    method NextPointSequence() returns (ok: bool)
      requires p <= |data|
      modifies this
      ensures Reports(ok, ReadSequence(old(data[p..]), old(m)))
    {
      hide ReadPoint, U32;
      if |data| - p < 4 { return false; }
      var n := U32(data[p..]);
      assert data[p..][4..] == data[p + 4..];
      p := p + 4;
      if n > WKB_MAX_POINTS { return false; }
      for i := 0 to n
        invariant p <= |data|
        invariant ReadSequence(old(data[p..]), old(m)) == ReadPoints(data[p..], n - i, m)
      {
        ok := NextPoint();
        if !ok { return false; }
      }
      return true;
    }

    method ParseGeometry(depth: nat) returns (ok: bool)
      requires p <= |data| && depth <= WKB_MAX_RECURSION_DEPTH + 1
      modifies this
      ensures Reports(ok, ReadGeometry(old(data[p..]), old(m), depth))
      decreases WKB_MAX_RECURSION_DEPTH + 1 - depth
    {
      hide ReadPoint, ReadSequence, U32;
      if depth > WKB_MAX_RECURSION_DEPTH { return false; }
      if |data| - p < WKB_HEADER_SIZE { return false; }
      assert data[p..][1..] == data[p + 1..] && data[p..][5..] == data[p + 5..];
      p := p + 1;
      var gt := U32(data[p..]);
      p := p + 4;
      ghost var body := data[p..];
      match gt
      case 1 =>
        ok := NextPoint();
      case 2 =>
        ok := NextPointSequence();
      case 3 =>
        if |data| - p < 4 { return false; }
        var n := U32(data[p..]);
        p := p + 4;
        assert body[4..] == data[p..];
        if n > WKB_MAX_RINGS { return false; }
        for r := 0 to n
          invariant p <= |data|
          invariant ReadGeometry(old(data[p..]), old(m), depth) == ReadRings(data[p..], n - r, m)
        {
          ok := NextPointSequence();
          if !ok { return false; }
        }
        ok := true;
      case _ =>
        if gt < 4 || gt > 7 { return false; }
        if |data| - p < 4 { return false; }
        var n := U32(data[p..]);
        p := p + 4;
        assert body[4..] == data[p..];
        if n > WKB_MAX_GEOMS { return false; }
        for i := 0 to n
          invariant p <= |data|
          invariant ReadGeometry(old(data[p..]), old(m), depth) == ReadGeometries(data[p..], n - i, m, depth + 1)
        {
          ok := ParseGeometry(depth + 1);
          if !ok { return false; }
        }
        ok := true;
    }
  }

  /** compute_mbr: total on every byte string, and never reads past its end. */
  method ComputeMbr(data: seq<byte>) returns (out: Option<Rect>)
    ensures out == MbrOf(data)
  {
    if |data| < SRID_SIZE + WKB_HEADER_SIZE { return None; }
    var reader := new WkbReader(data, SRID_SIZE);
    var ok := reader.ParseGeometry(0);
    if !ok { return None; }
    return if NonEmptyRect(reader.m) then Some(reader.m) else None;
  }
}
