/**
 The order-32 Hilbert transform of the spatial index (hilbert_rot and hilbert_xy2d_64).

 Distance is the self-similar definition of the curve: each level picks a quadrant and transforms
 the remainder of the point into that quadrant's own frame.  The loop of the source never masks the
 coordinates and reflects them modulo 2^32, so stray high bits accumulate; the loop is proved to
 compute Distance all the same.  PointAt is the inverse walk along the curve.
 */
module Hilbert {
  import opened Powers

  const HILBERT_ORDER: nat := 32
  const HILBERT_N: nat := TWO32

  datatype Point = Point(x: nat, y: nat)

  predicate OnGrid(k: nat, x: nat, y: nat) {
    x < Pow2(k) && y < Pow2(k)
  }

  /** A quadrant, numbered along the curve, and a point in that quadrant's own frame. */
  datatype Local = Local(quadrant: nat, p: Point)

  /** Locate a point of the 2s by 2s grid: its quadrant, and the point turned into its frame. */
  function Enter(s: nat, x: nat, y: nat): (l: Local)
    requires x < 2 * s && y < 2 * s
    ensures l.quadrant < 4 && l.p.x < s && l.p.y < s
  {
    if y < s then
      if x < s then Local(0, Point(y, x)) else Local(3, Point(s - 1 - y, 2 * s - 1 - x))
    else
      if x < s then Local(1, Point(x, y - s)) else Local(2, Point(x - s, y - s))
  }

  /** Turn a point of a quadrant's frame back onto the 2s by 2s grid. */
  function Leave(s: nat, l: Local): (p: Point)
    requires l.quadrant < 4 && l.p.x < s && l.p.y < s
    ensures p.x < 2 * s && p.y < 2 * s
    ensures Enter(s, p.x, p.y) == l
  {
    match l.quadrant
    case 0 => Point(l.p.y, l.p.x)
    case 1 => Point(l.p.x, l.p.y + s)
    case 2 => Point(l.p.x + s, l.p.y + s)
    case _ => Point(2 * s - 1 - l.p.y, s - 1 - l.p.x)
  }

  /** q times a, for a quadrant number. */
  function Skip(q: nat, a: nat): nat
    requires q < 4
  {
    match q
    case 0 => 0
    case 1 => a
    case 2 => 2 * a
    case _ => 3 * a
  }

  /** The quadrant a distance below 4a falls in. */
  function QuadrantOf(a: nat, d: nat): (q: nat)
    requires d < 4 * a
    ensures q < 4 && Skip(q, a) <= d < Skip(q, a) + a
  {
    if d < a then 0 else if d < 2 * a then 1 else if d < 3 * a then 2 else 3
  }

  /** The distance of a point along the order-k curve. */
  function Distance(k: nat, x: nat, y: nat): (d: nat)
    requires OnGrid(k, x, y)
    ensures d < Pow4(k)
  {
    if k == 0 then 0
    else
      var l := Enter(Pow2(k - 1), x, y);
      Skip(l.quadrant, Pow4(k - 1)) + Distance(k - 1, l.p.x, l.p.y)
  }

  /** The point at a distance along the order-k curve. */
  function PointAt(k: nat, d: nat): (p: Point)
    requires d < Pow4(k)
    ensures OnGrid(k, p.x, p.y)
  {
    if k == 0 then Point(0, 0)
    else
      var a := Pow4(k - 1);
      var q := QuadrantOf(a, d);
      Leave(Pow2(k - 1), Local(q, PointAt(k - 1, d - Skip(q, a))))
  }

  lemma DistanceStep(k: nat, x: nat, y: nat)
    requires k > 0 && OnGrid(k, x, y)
    ensures var l := Enter(Pow2(k - 1), x, y);
            Distance(k, x, y) == Skip(l.quadrant, Pow4(k - 1)) + Distance(k - 1, l.p.x, l.p.y)
  {
  }

  lemma PointAtStep(k: nat, d: nat)
    requires k > 0 && d < Pow4(k)
    ensures var q := QuadrantOf(Pow4(k - 1), d);
            PointAt(k, d) == Leave(Pow2(k - 1), Local(q, PointAt(k - 1, d - Skip(q, Pow4(k - 1)))))
  {
  }

  /** Every grid point is found again at its distance. */
  lemma {:induction false} PointAtDistance(k: nat, x: nat, y: nat)
    requires OnGrid(k, x, y)
    ensures PointAt(k, Distance(k, x, y)) == Point(x, y)
  {
    hide PointAt, Distance, Enter, Leave, QuadrantOf, Pow4;
    if k == 0 {
      OnlyPoint(x, y);
    } else {
      var s, a := Pow2(k - 1), Pow4(k - 1);
      var l := Enter(s, x, y);
      DistanceStep(k, x, y);
      LeaveEntered(s, x, y);
      PointAtDistance(k - 1, l.p.x, l.p.y);
      QuadrantOfSkip(l.quadrant, a, Distance(k - 1, l.p.x, l.p.y));
      PointAtStep(k, Distance(k, x, y));
    }
  }

  lemma OnlyPoint(x: nat, y: nat)
    requires OnGrid(0, x, y)
    ensures PointAt(0, Distance(0, x, y)) == Point(x, y)
  {
  }

  lemma LeaveEntered(s: nat, x: nat, y: nat)
    requires s > 0 && x < 2 * s && y < 2 * s
    ensures Leave(s, Enter(s, x, y)) == Point(x, y)
  {
  }

  lemma QuadrantOfSkip(q: nat, a: nat, r: nat)
    requires q < 4 && r < a
    ensures QuadrantOf(a, Skip(q, a) + r) == q
  {
  }

  /** Every distance below 4^k is the distance of the point the walk reaches. */
  lemma {:induction false} DistanceOfPointAt(k: nat, d: nat)
    requires d < Pow4(k)
    ensures var p := PointAt(k, d); Distance(k, p.x, p.y) == d
  {
    hide PointAt, Distance, Enter, Leave;
    if k == 0 {
      OnlyDistance(d);
    } else {
      var s, a := Pow2(k - 1), Pow4(k - 1);
      var q := QuadrantOf(a, d);
      var r := d - Skip(q, a);
      var p := PointAt(k - 1, r);
      DistanceOfPointAt(k - 1, r);
      PointAtStep(k, d);
      EnterLeft(s, q, p);
      DistanceStep(k, PointAt(k, d).x, PointAt(k, d).y);
    }
  }

  lemma OnlyDistance(d: nat)
    requires d < Pow4(0)
    ensures var p := PointAt(0, d); OnGrid(0, p.x, p.y) && Distance(0, p.x, p.y) == d
  {
  }

  lemma EnterLeft(s: nat, q: nat, p: Point)
    requires s > 0 && q < 4 && p.x < s && p.y < s
    ensures var l := Leave(s, Local(q, p)); l.x < 2 * s && l.y < 2 * s && Enter(s, l.x, l.y) == Local(q, p)
  {
  }

  /** Two points at one distance are one point. */
  lemma DistanceIsInjective(k: nat, x: nat, y: nat, x': nat, y': nat)
    requires OnGrid(k, x, y) && OnGrid(k, x', y')
    requires Distance(k, x, y) == Distance(k, x', y')
    ensures x == x' && y == y'
  {
    PointAtDistance(k, x, y);
    PointAtDistance(k, x', y');
  }

  lemma {:induction false} CurveEnds(k: nat)
    ensures PointAt(k, 0) == Point(0, 0)
    ensures PointAt(k, Pow4(k) - 1) == Point(Pow2(k) - 1, 0)
  {
    hide PointAt;
    if k == 0 {
      FirstPoint();
    } else {
      CurveEnds(k - 1);
      PointAtStep(k, 0);
      PointAtStep(k, Pow4(k) - 1);
    }
  }

  lemma FirstPoint()
    ensures PointAt(0, 0) == Point(0, 0)
  {
  }

  function Gap(a: nat, b: nat): nat {
    if a < b then b - a else a - b
  }

  /** The two points are horizontal or vertical neighbours. */
  predicate OneStepApart(p: Point, q: Point) {
    Gap(p.x, q.x) + Gap(p.y, q.y) == 1
  }

  lemma LeaveKeepsNeighbours(s: nat, q: nat, p: Point, p': Point)
    requires q < 4 && p.x < s && p.y < s && p'.x < s && p'.y < s
    requires OneStepApart(p, p')
    ensures OneStepApart(Leave(s, Local(q, p)), Leave(s, Local(q, p')))
  {
  }

  /** Consecutive distances are neighbouring points: the curve never jumps. */
  lemma {:induction false} CurveIsContinuous(k: nat, d: nat)
    requires d + 1 < Pow4(k)
    ensures OneStepApart(PointAt(k, d), PointAt(k, d + 1))
  {
    hide PointAt, QuadrantOf, Skip, Leave, OneStepApart;
    if k > 0 {
      var s, a := Pow2(k - 1), Pow4(k - 1);
      var q, q' := QuadrantOf(a, d), QuadrantOf(a, d + 1);
      NextQuadrant(a, d);
      var r := d - Skip(q, a);
      PointAtStep(k, d);
      PointAtStep(k, d + 1);
      if q == q' {
        CurveIsContinuous(k - 1, r);
        LeaveKeepsNeighbours(s, q, PointAt(k - 1, r), PointAt(k - 1, r + 1));
      } else {
        CurveEnds(k - 1);
        QuadrantsMeet(s, q);
      }
    }
  }

  /** A step along the distances stays in its quadrant or goes from its end to the start of the next. */
  lemma NextQuadrant(a: nat, d: nat)
    requires a > 0 && d + 1 < 4 * a
    ensures var q, q' := QuadrantOf(a, d), QuadrantOf(a, d + 1);
      && Skip(q, a) <= d < Skip(q, a) + a
      && (q == q' ==> d + 1 - Skip(q, a) < a)
      && (q != q' ==> q' == q + 1 && d - Skip(q, a) == a - 1 && d + 1 == Skip(q', a))
  {
  }

  /** The last cell of a quadrant is next to the first cell of the one after it. */
  lemma QuadrantsMeet(s: nat, q: nat)
    requires s > 0 && q < 3
    ensures OneStepApart(Leave(s, Local(q, Point(s - 1, 0))), Leave(s, Local(q + 1, Point(0, 0))))
  {
  }

  // ---- the loop of the source ------------------------------------------------------------

  /** (3 * rx) ^ ry for the two quadrant flags. */
  function Quadrant(rx: nat, ry: nat): nat {
    if ry == 0 then 3 * rx else if rx == 0 then 1 else 2
  }

  /** hilbert_rot on 32-bit unsigned coordinates: the subtraction wraps. */
  function HilbertRot(n: nat, x: nat, y: nat, rx: nat, ry: nat): Point {
    if ry != 0 then Point(x, y)
    else if rx == 1 then Point((n - 1 - y) % TWO32, (n - 1 - x) % TWO32)
    else Point(y, x)
  }

  /** The distance still to be added when k levels are left, whatever the stray high bits are. */
  function Remaining(k: nat, x: nat, y: nat): nat {
    Distance(k, LowBits(k, x), LowBits(k, y))
  }

  /** A wrapped reflection about 2s - 1 reflects the bits below s about s - 1. */
  lemma ReflectLowBits(k: nat, x: nat)
    requires 0 < k <= 32
    ensures LowBits(k - 1, ((2 * Pow2(k - 1)) % TWO32 - 1 - x) % TWO32) == Pow2(k - 1) - 1 - LowBits(k - 1, x)
  {
    hide Pow2, LowBits;
    var s := Pow2(k - 1);
    LowBitsReflect(k - 1, x);
    LowBitsIgnoreHigh(k - 1, k - 1, s - 1 - x, 1);
    assert s - 1 - x + 1 * s == 2 * s - 1 - x;
    LowBitsOfWrapped(k - 1, 2 * s - 1 - x);
    WrapTwice(2 * s, 1 + x);
  }

  /** Wrapping before and after a subtraction is wrapping once. */
  lemma WrapTwice(n: nat, x: nat)
    ensures (n % TWO32 - x) % TWO32 == (n - x) % TWO32
  {
  }

  /** One turn of the loop enters the quadrant the reduced point lies in. */
  lemma LoopEnters(k: nat, x: nat, y: nat)
    requires 0 < k <= 32
    ensures var s := Pow2(k - 1);
            var rx := if TestBit(x, s) then 1 else 0;
            var ry := if TestBit(y, s) then 1 else 0;
            var p := HilbertRot((2 * s) % TWO32, x, y, rx, ry);
            Enter(s, LowBits(k, x), LowBits(k, y))
            == Local(Quadrant(rx, ry), Point(LowBits(k - 1, p.x), LowBits(k - 1, p.y)))
  {
    LowBitsTop(k, x);
    LowBitsTop(k, y);
    ReflectLowBits(k, x);
    ReflectLowBits(k, y);
  }

  lemma QuadrantShare(k: nat, q: nat)
    requires q < 4
    ensures Pow2(k) * Pow2(k) * q == Skip(q, Pow4(k))
  {
    Pow4IsSquare(k);
  }

  /** One turn of the loop adds one quadrant's share and leaves the distance one level down. */
  lemma LoopStep(k: nat, x: nat, y: nat, d: nat)
    requires 0 < k <= 32
    requires d + Remaining(k, x, y) < TWO64
    ensures var s := Pow2(k - 1);
            var rx := if TestBit(x, s) then 1 else 0;
            var ry := if TestBit(y, s) then 1 else 0;
            var p := HilbertRot((2 * s) % TWO32, x, y, rx, ry);
            (d + s * s * Quadrant(rx, ry)) % TWO64 + Remaining(k - 1, p.x, p.y)
            == d + Remaining(k, x, y)
  {
    hide Distance, LowBits, TestBit, Enter, HilbertRot, Pow2, Pow4, Skip;
    LoopEnters(k, x, y);
    DistanceStep(k, LowBits(k, x), LowBits(k, y));
    var s := Pow2(k - 1);
    var q := Quadrant(if TestBit(x, s) then 1 else 0, if TestBit(y, s) then 1 else 0);
    QuadrantShare(k - 1, q);
    NoWrap(d + s * s * q);
  }

  lemma NoWrap(d: nat)
    ensures d < TWO64 ==> d % TWO64 == d
  {
  }

  lemma RemainingEnds(x: nat, y: nat)
    ensures Remaining(0, x, y) == 0
    ensures x < TWO32 && y < TWO32 ==>
              && OnGrid(HILBERT_ORDER, x, y)
              && Remaining(HILBERT_ORDER, x, y) == Distance(HILBERT_ORDER, x, y) < TWO64
  {
    Concrete();
    if x < TWO32 && y < TWO32 {
      LowBitsSmall(HILBERT_ORDER, x);
      LowBitsSmall(HILBERT_ORDER, y);
    }
  }

  lemma HalfPow2(k: nat)
    requires k > 0
    ensures Pow2(k - 1) / 2 == if k == 1 then 0 else Pow2(k - 2)
  {
  }

  /** hilbert_xy2d_64.  The 64-bit sum is written with its wrap-around, which never happens. */
  method HilbertXy2d64(x0: nat, y0: nat) returns (d: nat)
    requires x0 < TWO32 && y0 < TWO32
    ensures OnGrid(HILBERT_ORDER, x0, y0) && d == Distance(HILBERT_ORDER, x0, y0)
    ensures d < TWO64
  {
    hide Pow2, Pow4, Distance, Remaining, TestBit, LowBits;
    Concrete();
    RemainingEnds(x0, y0);
    var x: nat, y: nat := x0, y0;
    d := 0;
    var s := HILBERT_N / 2;
    ghost var k: nat := HILBERT_ORDER;
    ghost var total := Remaining(k, x0, y0);
    while s > 0
      invariant k <= 32 && s == (if k == 0 then 0 else Pow2(k - 1))
      invariant d + Remaining(k, x, y) == total
      decreases s
    {
      HalfPow2(k);
      LoopStep(k, x, y, d);
      var rx := if TestBit(x, s) then 1 else 0;
      var ry := if TestBit(y, s) then 1 else 0;
      d := (d + s * s * Quadrant(rx, ry)) % TWO64;
      var p := HilbertRot((2 * s) % TWO32, x, y, rx, ry);
      x, y := p.x, p.y;
      s := s / 2;
      k := k - 1;
    }
    RemainingEnds(x, y);
  }

  // ---- coarse cells -----------------------------------------------------------------------

  /** Shifting coordinates down commutes with entering a quadrant. */
  lemma EnterCoarse(k: nat, j: nat, x: nat, y: nat)
    requires OnGrid(k + 1 + j, x, y)
    ensures OnGrid(k + 1, Shr(x, j), Shr(y, j))
    ensures var l := Enter(Pow2(k + j), x, y);
            Enter(Pow2(k), Shr(x, j), Shr(y, j)) == Local(l.quadrant, Point(Shr(l.p.x, j), Shr(l.p.y, j)))
  {
    ShrBelow(k + 1, j, x);
    ShrBelow(k + 1, j, y);
    ShrBelow(k, j, x);
    ShrBelow(k, j, y);
    if x < Pow2(k + j) {
    } else {
      ShrSubtract(k, j, x);
      ShrReflect(k, j, x - Pow2(k + j));
      assert 2 * Pow2(k + j) - 1 - x == Pow2(k + j) - 1 - (x - Pow2(k + j));
    }
    if y < Pow2(k + j) {
      ShrReflect(k, j, y);
    } else {
      ShrSubtract(k, j, y);
    }
  }

  /** The first distance of the n-th run of 4^j distances. */
  function RunBase(n: nat, j: nat): nat {
    if j == 0 then n else 4 * RunBase(n, j - 1)
  }

  lemma {:induction false} RunBaseIsMultiple(n: nat, j: nat)
    ensures RunBase(n, j) == n * Pow4(j)
  {
    if j > 0 {
      RunBaseIsMultiple(n, j - 1);
    }
  }

  lemma {:induction false} RunBaseSkip(q: nat, k: nat, n: nat, j: nat)
    requires q < 4
    ensures RunBase(Skip(q, Pow4(k)) + n, j) == Skip(q, Pow4(k + j)) + RunBase(n, j)
  {
    if j > 0 {
      RunBaseSkip(q, k, n, j - 1);
      assert Pow4(k + j) == 4 * Pow4(k + j - 1);
    }
  }

  lemma CoarseOrigin(j: nat, x: nat, y: nat)
    requires OnGrid(j, x, y)
    ensures Shr(x, j) == 0 && Shr(y, j) == 0 && RunBase(Distance(0, 0, 0), j) == 0
  {
    ShrBelow(0, j, x);
    ShrBelow(0, j, y);
    RunBaseIsMultiple(0, j);
  }

  /**
   A point's distance lies in the run of its coarse cell: the k-level distance of the cell numbers
   the run of 4^j distances that holds the (k + j)-level distance of every point in it.
   */
  lemma {:induction false} CoarseCell(k: nat, j: nat, x: nat, y: nat)
    requires OnGrid(k + j, x, y)
    ensures OnGrid(k, Shr(x, j), Shr(y, j))
    ensures var base := RunBase(Distance(k, Shr(x, j), Shr(y, j)), j);
            base <= Distance(k + j, x, y) < base + Pow4(j)
  {
    hide Distance, Shr, RunBase, Enter, Skip, Pow4;
    if k == 0 {
      CoarseOrigin(j, x, y);
    } else {
      assert k + j - 1 == k - 1 + j;
      EnterCoarse(k - 1, j, x, y);
      var l := Enter(Pow2(k - 1 + j), x, y);
      CoarseCell(k - 1, j, l.p.x, l.p.y);
      RunBaseSkip(l.quadrant, k - 1, Distance(k - 1, Shr(l.p.x, j), Shr(l.p.y, j)), j);
      DistanceStep(k, Shr(x, j), Shr(y, j));
      DistanceStep(k + j, x, y);
    }
  }
}
