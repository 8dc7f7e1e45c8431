/**
 The scan of a spatial index (index_read_spatial, index_next and spatial_scan_next): an iterator
 over entries in key order is moved from range to range, and the rectangles are filtered on the
 way.  Reading to the end returns, in key order and each once, exactly the entries that satisfy the
 predicate among those whose distance the query scans.
 */
module SpatialScan {
  import opened Powers
  import opened Bytes
  import opened Doubles
  import opened Hilbert
  import opened SpatialRanges
  import opened SpatialIndex

  predicate Sorted(entries: seq<Entry>) {
    forall i, j :: 0 <= i < j < |entries| ==> Less(entries[i].key, entries[j].key)
  }

  /** A key of the spatial family with a primary key behind the distance. */
  predicate Whole(e: Entry) {
    |e.key| > HILBERT_KEY_LEN
  }

  /** Key order against a bare eight-byte seek key is numeric order of the distance. */
  lemma SeekOrder(e: Entry, lo: nat)
    requires Whole(e) && lo < TWO64
    ensures Less(e.key, BigEndian(lo, HILBERT_KEY_LEN)) <==> EntryDistance(e) < lo
  {
    var head, tail := e.key[..HILBERT_KEY_LEN], e.key[HILBERT_KEY_LEN..];
    ConcreteWidths();
    FromBigEndianBound(head);
    BigEndianOrder(EntryDistance(e), lo, HILBERT_KEY_LEN);
    LessConcat(head, BigEndian(lo, HILBERT_KEY_LEN), tail, []);
    assert e.key == head + tail && BigEndian(lo, HILBERT_KEY_LEN) + [] == BigEndian(lo, HILBERT_KEY_LEN);
  }

  lemma KeyOrderIsDistanceOrder(e: Entry, f: Entry)
    requires Whole(e) && Whole(f) && Less(e.key, f.key)
    ensures EntryDistance(e) <= EntryDistance(f)
  {
    hide EntryDistance;
    SeekOrder(e, EntryDistance(e));
    if EntryDistance(f) < EntryDistance(e) {
      SeekOrder(f, EntryDistance(e));
      LessTransitive(e.key, f.key, BigEndian(EntryDistance(e), HILBERT_KEY_LEN));
    }
  }

  /** The entry satisfies the query and its row is still there. */
  predicate Satisfies(mode: Predicate, q: Mbr, rows: set<seq<byte>>, e: Entry)
    requires FiniteMbr(q) && FiniteMbr(e.mbr)
  {
    Whole(e) && MbrPredicate(mode, q, e.mbr) && e.key[HILBERT_KEY_LEN..] in rows
  }

  /** The same by the points of the two rectangles. */
  ghost predicate Answers(mode: Predicate, q: Mbr, rows: set<seq<byte>>, e: Entry)
    requires FiniteMbr(q) && FiniteMbr(e.mbr)
  {
    Whole(e) && SaysOfPoints(mode, q, e.mbr) && e.key[HILBERT_KEY_LEN..] in rows
  }

  lemma SatisfyingAnswers(mode: Predicate, q: Mbr, rows: set<seq<byte>>, e: Entry)
    requires OrderedMbr(q) && OrderedMbr(e.mbr)
    ensures Satisfies(mode, q, rows, e) <==> Answers(mode, q, rows, e)
  {
    hide MbrPredicate, SaysOfPoints;
    PredicateByPoints(mode, q, e.mbr);
  }

  /** The entry is one a scan of the ranges has to return. */
  predicate Wanted(mode: Predicate, q: Mbr, rows: set<seq<byte>>, ranges: seq<Range>, e: Entry)
    requires FiniteMbr(q) && FiniteMbr(e.mbr)
  {
    Satisfies(mode, q, rows, e) && InRanges(ranges, EntryDistance(e))
  }

  /**
   The iterator stands where range r needs it: what is behind is not past the range, what is ahead
   is not before it and is past every finished range.
   */
  ghost predicate Placed(entries: seq<Entry>, ranges: seq<Range>, r: nat, pos: nat) {
    && pos <= |entries| && r <= |ranges|
    && (forall i, k :: pos <= i < |entries| && Whole(entries[i]) && 0 <= k < r ==>
          ranges[k].hi < EntryDistance(entries[i]))
    && (forall i :: pos <= i < |entries| && Whole(entries[i]) && r < |ranges| ==>
          ranges[r].lo <= EntryDistance(entries[i]))
    && (forall i :: 0 <= i < pos && Whole(entries[i]) && r < |ranges| ==>
          EntryDistance(entries[i]) <= ranges[r].hi)
  }

  /** Once an entry is past a bound, so are all later ones. */
  lemma LaterIsFarther(entries: seq<Entry>, pos: nat, bound: nat)
    requires Sorted(entries) && pos < |entries| && Whole(entries[pos])
    requires bound < EntryDistance(entries[pos])
    ensures forall i :: pos <= i < |entries| && Whole(entries[i]) ==> bound < EntryDistance(entries[i])
  {
    hide EntryDistance;
    forall i | pos < i < |entries| && Whole(entries[i])
      ensures bound < EntryDistance(entries[i])
    {
      KeyOrderIsDistanceOrder(entries[pos], entries[i]);
    }
  }

  /** Between the end of one range and the seek to the next nothing in any range is skipped. */
  lemma NothingSkipped(entries: seq<Entry>, ranges: seq<Range>, r: nat, left: nat, pos: nat)
    requires Separated(ranges) && 0 < r < |ranges| && left <= |entries| && pos <= |entries|
    requires Placed(entries, ranges, r - 1, left)
    requires forall i :: left <= i < |entries| && Whole(entries[i]) ==> ranges[r - 1].hi < EntryDistance(entries[i])
    requires forall i :: 0 <= i < |entries| && Whole(entries[i]) ==>
               (i < pos <==> EntryDistance(entries[i]) < ranges[r].lo)
    ensures Placed(entries, ranges, r, pos)
    ensures forall i :: left <= i < pos && Whole(entries[i]) ==> !InRanges(ranges, EntryDistance(entries[i]))
    ensures forall i :: pos <= i < left ==> !Whole(entries[i])
  {
    hide EntryDistance;
    forall i, k | pos <= i < |entries| && Whole(entries[i]) && 0 <= k < r
      ensures ranges[k].hi < EntryDistance(entries[i])
    {
      assert ranges[k].hi + 1 < ranges[r].lo;
    }
    forall i | left <= i < pos && Whole(entries[i])
      ensures !InRanges(ranges, EntryDistance(entries[i]))
    {
      var d := EntryDistance(entries[i]);
      forall k | 0 <= k < |ranges| ensures !(ranges[k].lo <= d <= ranges[k].hi) {
        if k < r - 1 {
          assert ranges[k].hi < d;
        } else if k > r {
          assert ranges[r].hi + 1 < ranges[k].lo;
        }
      }
    }
    assert ranges[r - 1].hi + 1 < ranges[r].lo;
  }

  /** An entry the scan has to return is whole and in a range. */
  lemma WantedIsInRange(mode: Predicate, q: Mbr, rows: set<seq<byte>>, ranges: seq<Range>, e: Entry)
    requires FiniteMbr(q) && FiniteMbr(e.mbr) && Wanted(mode, q, rows, ranges, e)
    ensures Whole(e) && InRanges(ranges, EntryDistance(e))
  {
    hide EntryDistance, MbrPredicate, InRanges;
  }

  /** Entries outside every range are not wanted. */
  lemma OutsideIsUnwanted(mode: Predicate, q: Mbr, rows: set<seq<byte>>, ranges: seq<Range>, entries: seq<Entry>,
                          lo: nat, hi: nat)
    requires FiniteMbr(q) && hi <= |entries| && forall i :: 0 <= i < |entries| ==> FiniteMbr(entries[i].mbr)
    requires forall i :: lo <= i < hi && Whole(entries[i]) ==> !InRanges(ranges, EntryDistance(entries[i]))
    ensures forall i :: lo <= i < hi ==> !Wanted(mode, q, rows, ranges, entries[i])
  {
    hide EntryDistance, MbrPredicate, InRanges, Wanted, FiniteMbr, Whole;
    forall i | lo <= i < hi ensures !Wanted(mode, q, rows, ranges, entries[i]) {
      if Wanted(mode, q, rows, ranges, entries[i]) {
        WantedIsInRange(mode, q, rows, ranges, entries[i]);
      }
    }
  }

  /** A hit of a later range lies behind where an earlier range was entered. */
  lemma HitIsLater(entries: seq<Entry>, ranges: seq<Range>, r: nat, start: nat, r': nat, pos: nat)
    requires Placed(entries, ranges, r, start) && Separated(ranges) && r < r' < |ranges|
    requires pos < |entries| && Whole(entries[pos]) && ranges[r'].lo <= EntryDistance(entries[pos])
    ensures start <= pos
  {
    hide EntryDistance, Whole;
    assert ranges[r].hi + 1 < ranges[r'].lo;
  }

  lemma PastAllRanges(entries: seq<Entry>, ranges: seq<Range>, pos: nat)
    requires Placed(entries, ranges, |ranges|, pos)
    ensures forall i :: pos <= i < |entries| && Whole(entries[i]) ==> !InRanges(ranges, EntryDistance(entries[i]))
  {
  }

  lemma InThisRange(ranges: seq<Range>, r: nat, d: nat)
    requires r < |ranges| && ranges[r].lo <= d <= ranges[r].hi
    ensures InRanges(ranges, d)
  {
  }

  lemma PlacedBounds(entries: seq<Entry>, ranges: seq<Range>, r: nat, pos: nat)
    requires Placed(entries, ranges, r, pos)
    ensures pos <= |entries| && r <= |ranges|
  {
  }

  /** After the last range the iterator is past them all. */
  lemma PlacedAtEnd(entries: seq<Entry>, ranges: seq<Range>, r: nat, pos: nat)
    requires 0 < r == |ranges| && Placed(entries, ranges, r - 1, pos)
    requires forall i :: pos <= i < |entries| && Whole(entries[i]) ==> ranges[r - 1].hi < EntryDistance(entries[i])
    ensures Placed(entries, ranges, r, pos)
  {
    hide EntryDistance, Whole;
  }

  class SpatialCursor {
    const entries: seq<Entry>
    const rows: set<seq<byte>>
    var mode: Predicate
    var query: Mbr
    var ranges: seq<Range>
    var rangeIdx: nat
    var pos: nat

    /** The store hands out entries in key order, and only finite rectangles are stored. */
    ghost predicate Store() {
      Sorted(entries) && forall i :: 0 <= i < |entries| ==> FiniteMbr(entries[i].mbr)
    }

    ghost predicate Valid()
      reads this
    {
      Store() && FiniteMbr(query) && Separated(ranges) && Placed(entries, ranges, rangeIdx, pos)
    }

    /** The iterator stands on an entry of the current range that the scan returns. */
    ghost predicate OnHit()
      reads this
      requires Valid()
    {
      && pos < |entries| && rangeIdx < |ranges|
      && Wanted(mode, query, rows, ranges, entries[pos])
      && ranges[rangeIdx].lo <= EntryDistance(entries[pos]) <= ranges[rangeIdx].hi
    }

    constructor (entries: seq<Entry>, rows: set<seq<byte>>)
      ensures this.entries == entries && this.rows == rows
    {
      this.entries := entries;
      this.rows := rows;
      mode := Unsupported;
      query := Mbr(PLUS_ZERO, PLUS_ZERO, PLUS_ZERO, PLUS_ZERO);
      ranges := [];
      rangeIdx := 0;
      pos := 0;
    }

    /** The library's seek: the first entry whose key is not below the seek key. */
    method Seek(key: seq<byte>)
      requires Store()
      modifies this`pos
      ensures pos <= |entries|
      ensures forall i :: 0 <= i < |entries| ==> (i < pos <==> Less(entries[i].key, key))
    {
      pos := 0;
      while pos < |entries| && Less(entries[pos].key, key)
        invariant pos <= |entries|
        invariant forall i :: 0 <= i < pos ==> Less(entries[i].key, key)
      {
        pos := pos + 1;
      }
      forall i | pos <= i < |entries| ensures !Less(entries[i].key, key) {
        if Less(entries[i].key, key) && i > pos {
          LessTransitive(entries[pos].key, entries[i].key, key);
        }
      }
    }

    /** Seek to the low end of the current range. */
    method SeekRange()
      requires Store() && Separated(ranges) && rangeIdx < |ranges|
      modifies this`pos
      ensures pos <= |entries|
      ensures forall i :: 0 <= i < |entries| && Whole(entries[i]) ==>
                (i < pos <==> EntryDistance(entries[i]) < ranges[rangeIdx].lo)
    {
      hide EntryDistance;
      var key := new byte[HILBERT_KEY_LEN];
      EncodeHilbertBe(ranges[rangeIdx].lo, key);
      assert key[..] == key[..HILBERT_KEY_LEN];
      Seek(key[..]);
      forall i | 0 <= i < |entries| && Whole(entries[i])
        ensures i < pos <==> EntryDistance(entries[i]) < ranges[rangeIdx].lo
      {
        SeekOrder(entries[i], ranges[rangeIdx].lo);
      }
    }

    /** The walk inside the current range: to the next hit, or past the range. */
    method WalkRange() returns (found: bool)
      requires Valid() && rangeIdx < |ranges|
      modifies this`pos
      ensures Valid() && old(pos) <= pos
      ensures forall i :: old(pos) <= i < pos ==> !Wanted(mode, query, rows, ranges, entries[i])
      ensures found ==> OnHit()
      ensures !found ==> forall i :: pos <= i < |entries| && Whole(entries[i]) ==>
                ranges[rangeIdx].hi < EntryDistance(entries[i])
    {
      hide Separated, FiniteMbr, MbrPredicate, Sorted, InRanges;
      var curHi := ranges[rangeIdx].hi;
      while pos < |entries|
        invariant Valid() && old(pos) <= pos
        invariant forall i :: old(pos) <= i < pos ==> !Wanted(mode, query, rows, ranges, entries[i])
        decreases |entries| - pos
      {
        var e := entries[pos];
        if !Whole(e) {
          pos := pos + 1;
          continue;
        }
        var h := DecodeHilbertBe(e.key);
        if h > curHi {
          LaterIsFarther(entries, pos, curHi);
          return false;
        }
        if !MbrPredicate(mode, query, e.mbr) || e.key[HILBERT_KEY_LEN..] !in rows {
          pos := pos + 1;
          continue;
        }
        InThisRange(ranges, rangeIdx, h);
        return true;
      }
      return false;
    }

    /** spatial_scan_next: the next hit at or after the iterator position, or -1 at the end. */
    method ScanNext() returns (hit: int)
      requires Valid()
      modifies this`pos, this`rangeIdx
      ensures Valid()
      ensures hit == -1 ==> forall i :: old(pos) <= i < |entries| ==> !Wanted(mode, query, rows, ranges, entries[i])
      ensures hit != -1 ==>
                && old(pos) <= hit == pos && OnHit()
                && forall i :: old(pos) <= i < hit ==> !Wanted(mode, query, rows, ranges, entries[i])
    {
      hide EntryDistance, MbrPredicate, Wanted, Placed, Separated, InRanges, FiniteMbr, Whole, Sorted;
      ghost var start, r0 := pos, rangeIdx;
      PlacedBounds(entries, ranges, rangeIdx, pos);
      while rangeIdx < |ranges|
        invariant Valid() && r0 <= rangeIdx && pos <= |entries|
        invariant rangeIdx == r0 ==> start <= pos
        invariant forall i :: start <= i < pos ==> !Wanted(mode, query, rows, ranges, entries[i])
        decreases |ranges| - rangeIdx
      {
        PlacedBounds(entries, ranges, rangeIdx, pos);
        var found := WalkRange();
        PlacedBounds(entries, ranges, rangeIdx, pos);
        if found {
          WantedIsInRange(mode, query, rows, ranges, entries[pos]);
          if r0 < rangeIdx {
            HitIsLater(entries, ranges, r0, start, rangeIdx, pos);
          }
          return pos;
        }
        rangeIdx := rangeIdx + 1;
        if rangeIdx < |ranges| {
          ghost var left := pos;
          SeekRange();
          NothingSkipped(entries, ranges, rangeIdx, left, pos);
          OutsideIsUnwanted(mode, query, rows, ranges, entries, left, pos);
        } else {
          PlacedAtEnd(entries, ranges, rangeIdx, pos);
        }
      }
      PlacedBounds(entries, ranges, rangeIdx, pos);
      PastAllRanges(entries, ranges, pos);
      OutsideIsUnwanted(mode, query, rows, ranges, entries, pos, |entries|);
      return -1;
    }

    /** index_read_spatial */
    method IndexRead(q: Mbr, m: Predicate) returns (hit: int)
      requires Store() && OrderedMbr(q) && ValidBox(QueryBox(q))
      modifies this
      ensures Valid() && query == q && mode == m
      ensures forall d: nat :: d < TWO64 ==> (InRanges(ranges, d) <==> Scanned(m, q, d))
      ensures hit == -1 ==> forall i :: 0 <= i < |entries| ==> !Wanted(mode, query, rows, ranges, entries[i])
      ensures hit != -1 ==>
                && 0 <= hit == pos && OnHit()
                && forall i :: 0 <= i < hit ==> !Wanted(mode, query, rows, ranges, entries[i])
    {
      hide EntryDistance, MbrPredicate, NearBox, CellCount, Fold, Wanted, InRanges, FiniteMbr, Whole, Sorted;
      FiniteQuery(q);
      query, mode := q, m;
      if m.Disjoint? {
        ranges := [FULL_RANGE];
      } else {
        ranges := DecomposeRanges(QueryBox(q));
      }
      if ScansAll(m, q) {
        FullRangeHoldsAll();
      }
      rangeIdx := 0;
      pos := 0;
      if ranges != [] {
        SeekRange();
        assert Placed(entries, ranges, 0, pos);
        BelowFirstRange(entries, ranges, pos);
        OutsideIsUnwanted(mode, query, rows, ranges, entries, 0, pos);
      }
      hit := ScanNext();
    }

    /** index_next after a hit: step off it, then scan on. */
    method IndexNext() returns (hit: int)
      requires Valid() && OnHit()
      modifies this`pos, this`rangeIdx
      ensures Valid()
      ensures hit == -1 ==> forall i :: old(pos) < i < |entries| ==> !Wanted(mode, query, rows, ranges, entries[i])
      ensures hit != -1 ==>
                && old(pos) < hit == pos && OnHit()
                && forall i :: old(pos) < i < hit ==> !Wanted(mode, query, rows, ranges, entries[i])
    {
      pos := pos + 1;
      hit := ScanNext();
    }

    /** The whole read: index_read_spatial, then index_next until the end of the scan. */
    method ReadAll(q: Mbr, m: Predicate) returns (hits: seq<nat>)
      requires Store() && OrderedMbr(q) && ValidBox(QueryBox(q))
      modifies this
      ensures forall i, j :: 0 <= i < j < |hits| ==> hits[i] < hits[j]
      ensures forall i: nat :: i in hits <==>
                && i < |entries| && Satisfies(m, q, rows, entries[i])
                && Scanned(m, q, EntryDistance(entries[i]))
      ensures forall i: nat :: i < |entries| && OrderedMbr(entries[i].mbr) ==>
        (i in hits <==> Answers(m, q, rows, entries[i]) && Scanned(m, q, EntryDistance(entries[i])))
    {
      hide EntryDistance, MbrPredicate, SaysOfPoints, Scanned, Placed, InRanges;
      hits := [];
      var hit := IndexRead(q, m);
      while hit != -1
        invariant Valid() && query == q && mode == m
        invariant hit != -1 ==> 0 <= hit == pos && OnHit()
        invariant forall d: nat :: d < TWO64 ==> (InRanges(ranges, d) <==> Scanned(m, q, d))
        invariant forall i, j :: 0 <= i < j < |hits| ==> hits[i] < hits[j]
        invariant hit != -1 ==> forall k :: 0 <= k < |hits| ==> hits[k] < hit
        invariant forall i: nat :: i in hits <==>
                    i < |entries| && (hit == -1 || i < hit) && Wanted(m, q, rows, ranges, entries[i])
        decreases if hit == -1 then 0 else |entries| - hit
      {
        hits := hits + [hit];
        hit := IndexNext();
      }
      forall i: nat | i < |entries| && OrderedMbr(entries[i].mbr)
        ensures Satisfies(m, q, rows, entries[i]) <==> Answers(m, q, rows, entries[i])
      {
        SatisfyingAnswers(m, q, rows, entries[i]);
      }
    }
  }

  /** Every stored entry is keyed by its own centroid. */
  ghost predicate WellKeyed(entries: seq<Entry>) {
    forall i :: 0 <= i < |entries| ==> exists cx: Double, cy: Double :: Keyed(entries[i], cx, cy)
  }

  /** Nothing the query must return is behind a zero that folds the wrong way. */
  predicate Unclashed(m: Predicate, q: Mbr, e: Entry)
    requires FiniteMbr(e.mbr)
  {
    || ScansAll(m, q)
    || (&& !ZeroClash(q.xmin, q.xmax, e.mbr.xmin, e.mbr.xmax)
        && !ZeroClash(q.ymin, q.ymax, e.mbr.ymin, e.mbr.ymax))
  }

  lemma NoMinusZeroUnclashed(m: Predicate, q: Mbr, e: Entry)
    requires FiniteMbr(e.mbr) && NoMinusZero(q) && NoMinusZero(e.mbr)
    ensures Unclashed(m, q, e)
  {
    hide Value, CellCount;
  }

  /**
   End to end: a within, contain or equal query that reads to the end returns exactly the entries that
   satisfy it and have no zero clash with it; without minus zeros, all that satisfy it.
   */
  method SpatialQuery(cursor: SpatialCursor, q: Mbr, m: Predicate) returns (hits: seq<nat>)
    requires m.Within? || m.Contain? || m.Equal?
    requires cursor.Store() && WellKeyed(cursor.entries)
    requires OrderedMbr(q) && ValidBox(QueryBox(q))
    modifies cursor
    ensures forall i, j :: 0 <= i < j < |hits| ==> hits[i] < hits[j]
    ensures forall i: nat :: i in hits <==>
              && i < |cursor.entries| && Answers(m, q, cursor.rows, cursor.entries[i])
              && Unclashed(m, q, cursor.entries[i])
    ensures NoMinusZero(q) && (forall i :: 0 <= i < |cursor.entries| ==> NoMinusZero(cursor.entries[i].mbr)) ==>
      forall i: nat :: i in hits <==> i < |cursor.entries| && Answers(m, q, cursor.rows, cursor.entries[i])
  {
    hide EntryDistance, MbrPredicate, SaysOfPoints, Scanned, Keyed, Fold, ZeroClash, ScansAll, Unclashed, NoMinusZero;
    hits := cursor.ReadAll(q, m);
    forall i: nat | i < |cursor.entries| ensures OrderedMbr(cursor.entries[i].mbr) {
      KeyedIsOrdered(cursor.entries[i]);
    }
    forall i: nat | i < |cursor.entries| && Answers(m, q, cursor.rows, cursor.entries[i])
      ensures Scanned(m, q, EntryDistance(cursor.entries[i])) <==> Unclashed(m, q, cursor.entries[i])
    {
      SatisfyingAnswers(m, q, cursor.rows, cursor.entries[i]);
      var cx: Double, cy: Double :| Keyed(cursor.entries[i], cx, cy);
      WithinIsUnclashed(m, q, cursor.entries[i], cx, cy);
    }
    forall i: nat | i < |cursor.entries| && NoMinusZero(q) && NoMinusZero(cursor.entries[i].mbr)
      ensures Unclashed(m, q, cursor.entries[i])
    {
      NoMinusZeroUnclashed(m, q, cursor.entries[i]);
    }
  }

  lemma KeyedIsOrdered(e: Entry)
    requires exists cx: Double, cy: Double :: Keyed(e, cx, cy)
    ensures OrderedMbr(e.mbr)
  {}

  lemma WithinIsUnclashed(m: Predicate, q: Mbr, e: Entry, cx: Double, cy: Double)
    requires m.Within? || m.Contain? || m.Equal?
    requires OrderedMbr(q) && Keyed(e, cx, cy) && MbrPredicate(m, q, e.mbr)
    ensures Scanned(m, q, EntryDistance(e)) <==> Unclashed(m, q, e)
  {
    hide EntryDistance, MbrPredicate, Scanned, ZeroClash, ScansAll, IsCentroid;
    WithinIsScanned(m, q, e, cx, cy);
  }

  lemma FullRangeHoldsAll()
    ensures forall d: nat :: d < TWO64 ==> InRanges([FULL_RANGE], d)
  {
    forall d: nat | d < TWO64 ensures InRanges([FULL_RANGE], d) {
      assert [FULL_RANGE][0].lo <= d <= [FULL_RANGE][0].hi;
    }
  }

  lemma FiniteQuery(q: Mbr)
    requires OrderedMbr(q)
    ensures FiniteMbr(q)
  {
  }

  lemma BelowFirstRange(entries: seq<Entry>, ranges: seq<Range>, pos: nat)
    requires Separated(ranges) && ranges != [] && pos <= |entries|
    requires forall i :: 0 <= i < pos && Whole(entries[i]) ==> EntryDistance(entries[i]) < ranges[0].lo
    ensures forall i :: 0 <= i < pos && Whole(entries[i]) ==> !InRanges(ranges, EntryDistance(entries[i]))
  {
    forall i, k | 0 <= i < pos && Whole(entries[i]) && 0 <= k < |ranges|
      ensures EntryDistance(entries[i]) < ranges[k].lo
    {
      assert k > 0 ==> ranges[0].hi + 1 < ranges[k].lo;
    }
  }
}
