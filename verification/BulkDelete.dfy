/**
 Bulk delete: a multi-row DELETE buffers its primary tombstones and, when the rows it removed are all
 the rows in the span they cover, writes one range tombstone for them instead.

 The primary family is the set of its live keys. Whatever way the statement ends, the rows gone are
 exactly the rows it deleted.
 */
module BulkDelete {
  import opened Bytes
  import opened Optional
  import opened RowFormat
  import opened Sets

  const KEY_INF_HI_BYTE: byte := 0xFF
  const DEFER_CAP: nat := 262144
  const MIN_RANGE: nat := 64

  type Key = seq<byte>

  /** Drop the trailing 0xFF bytes and increment the last byte left. */
  function Successor(k: Key): Option<Key> {
    if k == [] then None
    else if k[|k| - 1] != KEY_INF_HI_BYTE then Some(k[..|k| - 1] + [k[|k| - 1] + 1])
    else Successor(k[..|k| - 1])
  }

  predicate InSpan(lo: Key, hi: Key, k: Key) {
    !Less(k, lo) && Less(k, hi)
  }

  /** From a key up to its successor stand exactly the keys that begin with it. */
  lemma {:induction false} SuccessorBlock(s: Key, k: Key)
    requires Successor(s).Some?
    ensures InSpan(s, Successor(s).value, k) <==> s <= k
  {
    hide Less;
    var n := |s| - 1;
    var p, b, t := s[..n], s[n], Successor(s).value;
    assert s == p + [b];
    if b == KEY_INF_HI_BYTE {
      SuccessorBlock(p, k);
      if p <= k {
        Append(p, b, k);
      }
      if !Less(k, s) {
        BelowPrefix(p, [b], k);
      }
    } else {
      assert t == p + [b + 1];
      if p <= k {
        Append(p, b, k);
        Append(p, b + 1, k);
      }
      if InSpan(s, t, k) {
        BelowPrefix(p, [b], k);
        LessTrichotomy(p, k);
        PrefixBlock(p, k, t);
      }
    }
  }

  lemma Append(p: Key, b: byte, k: Key)
    requires p <= k
    ensures Less(k, p + [b]) <==> |k| == |p| || k[|p|] < b
  {
    var r := k[|p|..];
    assert k == p + r;
    LessConcat(p, p, r, [b]);
    LessIrreflexive(p);
    if r != [] && r[0] == b {
      assert !Less(r[1..], []);
    }
  }

  lemma BelowPrefix(p: Key, x: Key, k: Key)
    requires !Less(k, p + x)
    ensures !Less(k, p)
  {
    if Less(k, p) {
      PrefixSortsFirst(p, x);
      if p != p + x {
        LessTransitive(k, p, p + x);
      }
    }
  }

  /** No successor exactly for keys of nothing but 0xFF bytes. */
  lemma {:induction false} NoSuccessor(k: Key)
    ensures Successor(k).None? <==> forall i :: 0 <= i < |k| ==> k[i] == KEY_INF_HI_BYTE
  {
    if k != [] {
      NoSuccessor(k[..|k| - 1]);
    }
  }

  /** A span that starts and ends at data keys holds only data keys. */
  lemma SpanHoldsDataKeys(lo: Key, max: Key, hi: Key, k: Key)
    requires IsDataKey(lo) && IsDataKey(max) && Successor(max) == Some(hi) && InSpan(lo, hi, k)
    ensures IsDataKey(k)
  {
    hide Less;
    LessTrichotomy(k, max);
    if Less(k, max) {
      var ns := [KEY_NS_DATA];
      assert lo == ns + lo[1..];
      BelowPrefix(ns, lo[1..], k);
      LessTrichotomy(ns, k);
      assert ns <= max;
      PrefixBlock(ns, k, max);
    } else {
      SuccessorBlock(max, k);
    }
  }

  /** data_key_successor */
  method DataKeySuccessor(k: Key, out: array<byte>) returns (ok: bool, len: nat)
    requires out.Length >= |k|
    modifies out
    ensures len <= out.Length
    ensures Successor(k) == if ok then Some(out[..len]) else None
  {
    len := 0;
    if |k| == 0 {
      return false, 0;
    }
    for i := 0 to |k|
      invariant forall j :: 0 <= j < i ==> out[j] == k[j]
    {
      out[i] := k[i];
    }
    var i := |k|;
    assert k[..i] == k;
    while i > 0
      invariant 0 <= i <= |k|
      invariant out[..i] == k[..i]
      invariant Successor(k) == Successor(k[..i])
    {
      assert k[..i][..i - 1] == k[..i - 1] == out[..i - 1];
      if out[i - 1] != KEY_INF_HI_BYTE {
        out[i - 1] := out[i - 1] + 1;
        assert out[..i] == k[..i - 1] + [k[i - 1] + 1];
        return true, i;
      }
      i := i - 1;
    }
    return false, 0;
  }

  function Keys(s: seq<Key>): set<Key> {
    set k | k in s
  }

  predicate Distinct(s: seq<Key>) {
    forall i, j :: 0 <= i < j < |s| ==> s[i] != s[j]
  }

  lemma {:induction false} DistinctCount(s: seq<Key>)
    requires Distinct(s)
    ensures |Keys(s)| == |s|
  {
    if s == [] {
      assert Keys(s) == {};
    } else {
      var n := |s| - 1;
      DistinctCount(s[..n]);
      assert Keys(s) == Keys(s[..n]) + {s[n]};
    }
  }

  /** Counting more than the span cannot hide a survivor: equal counts make the sets equal. */
  lemma EqualCountsEqualSets(buffered: set<Key>, inSpan: set<Key>, counted: set<Key>)
    requires buffered <= inSpan <= counted && |counted| == |buffered|
    ensures inSpan == buffered
  {
    forall x | x in counted ensures x in buffered {
      if x !in buffered {
        Smaller(buffered, counted, x);
      }
    }
  }

  lemma Smaller(a: set<Key>, b: set<Key>, x: Key)
    requires a <= b && x in b && x !in a
    ensures |a| < |b|
  {
    var c := b - {x};
    assert a <= c;
    SubsetCount(a, c);
  }

  // ---- the statement ----------------------------------------------------------------------

  /** lo and max are the least and greatest of the buffered keys. */
  ghost predicate Bounds(keys: seq<Key>, lo: Key, max: Key) {
    && lo in keys && max in keys
    && (forall k :: k in keys ==> !Less(k, lo))
    && (forall k :: k in keys ==> !Less(max, k))
  }

  lemma BoundsGrow(keys: seq<Key>, lo: Key, max: Key, k: Key)
    requires Bounds(keys, lo, max)
    ensures Bounds(keys + [k], if Less(k, lo) then k else lo, if Less(max, k) then k else max)
  {
    hide Less;
    LessIrreflexive(k);
    forall j | j in keys + [k]
      ensures !Less(j, if Less(k, lo) then k else lo)
      ensures !Less(if Less(max, k) then k else max, j)
    {
      if Less(k, lo) && Less(j, k) { LessTransitive(j, k, lo); }
      if Less(max, k) && Less(k, j) { LessTransitive(max, k, j); }
    }
  }

  /** Where a statement stands: the rows it began with, and those it has deleted. */
  datatype Progress = Progress(start: set<Key>, doomed: set<Key>)

  /**
   Buffered rows are still live, every other deleted row is gone, and while the statement defers
   everything it deleted is in the buffer.
   */
  ghost predicate Running(pr: Progress, live: set<Key>, defer: bool, keys: seq<Key>, lo: Key, max: Key) {
    && pr.doomed <= pr.start && (forall k :: k in pr.doomed ==> IsDataKey(k))
    && Distinct(keys) && Keys(keys) <= pr.doomed
    && live == pr.start - (pr.doomed - Keys(keys))
    && (if defer then Keys(keys) == pr.doomed && (keys != [] ==> Bounds(keys, lo, max)) else keys == [])
  }

  lemma BufferKey(pr: Progress, live: set<Key>, keys: seq<Key>, lo: Key, max: Key, k: Key)
    requires Running(pr, live, true, keys, lo, max)
    requires k in pr.start && k !in pr.doomed && IsDataKey(k)
    ensures var lo' := if keys == [] || Less(k, lo) then k else lo;
            var max' := if keys == [] || Less(max, k) then k else max;
            Running(pr.(doomed := pr.doomed + {k}), live, true, keys + [k], lo', max')
  {
    hide Less;
    LessIrreflexive(k);
    assert Keys(keys + [k]) == Keys(keys) + {k};
    assert k in Keys(keys) <==> k in keys;
    if keys != [] {
      BoundsGrow(keys, lo, max, k);
    }
  }

  /** When the count matches, the range tombstone kills the buffered rows and nothing else. */
  lemma RangeIsTheBuffer(pr: Progress, live: set<Key>, keys: seq<Key>, lo: Key, max: Key, hi: Key, yielded: set<Key>)
    requires Running(pr, live, true, keys, lo, max) && keys != [] && Successor(max) == Some(hi)
    requires yielded <= live && forall k :: k in live && InSpan(lo, hi, k) ==> k in yielded
    requires |DataKeys(yielded)| == |keys|
    ensures (set k | k in live && !InSpan(lo, hi, k)) == pr.start - pr.doomed
  {
    hide InSpan, Less, IsDataKey;
    var inSpan := set k | k in live && InSpan(lo, hi, k);
    var counted := DataKeys(yielded);
    assert IsDataKey(lo) && IsDataKey(max) by {
      assert lo in Keys(keys) && max in Keys(keys);
    }
    forall k | k in Keys(keys) ensures k in inSpan {
      BufferedInSpan(keys, lo, max, hi, k);
    }
    forall k | k in inSpan ensures k in counted {
      SpanHoldsDataKeys(lo, max, hi, k);
    }
    DistinctCount(keys);
    EqualCountsEqualSets(Keys(keys), inSpan, counted);
    var left := set k | k in live && !InSpan(lo, hi, k);
    forall k ensures k in left <==> k in pr.start - pr.doomed {
      assert k in inSpan <==> k in live && InSpan(lo, hi, k);
    }
  }

  lemma BufferedInSpan(keys: seq<Key>, lo: Key, max: Key, hi: Key, k: Key)
    requires Bounds(keys, lo, max) && Successor(max) == Some(hi) && k in keys
    ensures InSpan(lo, hi, k)
  {
    hide Less;
    SuccessorBlock(max, max);
    LessTrichotomy(k, max);
    if Less(k, max) {
      LessTransitive(k, max, hi);
    }
  }

  /** What an iterator over the span hands out when its bounds are a hint. */
  function Yielded(live: set<Key>, lo: Key, hi: Key, stray: set<Key>): set<Key> {
    set k | k in live && (InSpan(lo, hi, k) || k in stray)
  }

  function DataKeys(s: set<Key>): set<Key> {
    set k | k in s && IsDataKey(k)
  }

  /** Every live row the iterator can yield is a buffered one. */
  ghost predicate OnlyTheBuffer(live: set<Key>, keys: seq<Key>, lo: Key, max: Key, stray: set<Key>) {
    Successor(max).Some? && forall k :: k in live && IsDataKey(k) && k !in keys ==>
      k !in stray && !InSpan(lo, Successor(max).value, k)
  }

  /** The count matches exactly when no other row is yielded. */
  lemma CountMatchesIff(pr: Progress, live: set<Key>, keys: seq<Key>, lo: Key, max: Key, hi: Key, stray: set<Key>)
    requires Running(pr, live, true, keys, lo, max) && keys != [] && Successor(max) == Some(hi)
    ensures |DataKeys(Yielded(live, lo, hi, stray))| == |keys| <==> OnlyTheBuffer(live, keys, lo, max, stray)
  {
    hide InSpan, Less, IsDataKey, Successor;
    var counted := DataKeys(Yielded(live, lo, hi, stray));
    forall k | k in Keys(keys) ensures k in counted {
      BufferedInSpan(keys, lo, max, hi, k);
    }
    DistinctCount(keys);
    if |counted| == |keys| {
      EqualCountsEqualSets(Keys(keys), counted, counted);
      assert forall k :: k in live && IsDataKey(k) && (InSpan(lo, hi, k) || k in stray) ==> k in counted;
    }
    if OnlyTheBuffer(live, keys, lo, max, stray) {
      assert counted == Keys(keys);
    }
  }

  lemma BoundsAreKeys(pr: Progress, live: set<Key>, keys: seq<Key>, lo: Key, max: Key)
    requires Running(pr, live, true, keys, lo, max) && keys != []
    ensures lo != [] && max != []
  {
    assert lo in Keys(keys) && max in Keys(keys);
  }

  /** The counting loop over what the iterator yields. */
  method CountDataKeys(keys: set<Key>) returns (count: nat)
    ensures count == |DataKeys(keys)|
  {
    hide IsDataKey;
    var rest := keys;
    count := 0;
    ghost var seen: set<Key> := {};
    while rest != {}
      invariant seen !! rest && seen + rest == keys
      invariant count == |DataKeys(seen)|
      decreases |rest|
    {
      var k :| k in rest;
      rest := rest - {k};
      assert DataKeys(seen + {k}) == if IsDataKey(k) then DataKeys(seen) + {k} else DataKeys(seen);
      seen := seen + {k};
      if IsDataKey(k) { count := count + 1; }
    }
    assert seen == keys;
  }

  class Deleter {
    /** The live keys of the primary family as the transaction sees them. */
    var live: set<Key>
    var inBulk: bool
    var defer: bool
    var keys: seq<Key>
    var minKey: Key
    var maxKey: Key
    var deletedRows: nat
    /** A user primary key and no delete triggers. */
    const mayDefer: bool
    /** The compact-after-delete threshold; zero is off. */
    const compactMinRows: nat
    ghost var progress: Progress

    ghost predicate Valid()
      reads this
    {
      Running(progress, live, defer, keys, minKey, maxKey)
      && (defer ==> inBulk && deletedRows == |keys|)
    }

    constructor (mayDefer: bool, compactMinRows: nat, live: set<Key>)
      ensures Valid() && this.live == live && this.mayDefer == mayDefer
    {
      this.mayDefer, this.compactMinRows, this.live := mayDefer, compactMinRows, live;
      inBulk, defer, keys, minKey, maxKey, deletedRows := false, false, [], [], [], 0;
      progress := Progress(live, {});
    }

    /** start_bulk_delete */
    method StartBulkDelete()
      modifies this
      ensures Valid() && live == old(live) && progress == Progress(live, {}) && inBulk && keys == []
      ensures defer == mayDefer
    {
      inBulk, deletedRows, minKey, maxKey, keys := true, 0, [], [], [];
      defer := mayDefer;
      progress := Progress(live, {});
    }

    /** delete_row, as far as the primary family goes. */
    method DeleteRow(k: Key)
      requires Valid() && IsDataKey(k) && k in progress.start && k !in progress.doomed
      modifies this
      ensures Valid() && inBulk == old(inBulk)
      ensures progress == old(progress).(doomed := old(progress).doomed + {k})
    {
      hide Less;
      if defer {
        BufferKey(progress, live, keys, minKey, maxKey, k);
      }
      if inBulk && (defer || compactMinRows > 0) {
        if deletedRows == 0 {
          minKey, maxKey := k, k;
        } else {
          if Less(k, minKey) { minKey := k; }
          if Less(maxKey, k) { maxKey := k; }
        }
        deletedRows := deletedRows + 1;
      }
      progress := progress.(doomed := progress.doomed + {k});
      if defer {
        keys := keys + [k];
        if |keys| >= DEFER_CAP {
          FlushBuffered();
          defer := false;
        }
      } else {
        live := live - {k};
      }
    }

    /** bulk_delete_flush_buffered */
    method FlushBuffered()
      requires Running(progress, live, defer, keys, minKey, maxKey)
      modifies this`live, this`keys
      ensures keys == [] && live == old(live) - Keys(old(keys))
      ensures live == progress.start - progress.doomed
    {
      for i := 0 to |keys|
        invariant keys == old(keys)
        invariant live == old(live) - Keys(keys[..i])
      {
        live := live - {keys[i]};
        assert Keys(keys[..i + 1]) == Keys(keys[..i]) + {keys[i]};
      }
      assert keys[..|keys|] == keys;
      keys := [];
    }

    /**
     count_live_data_keys. The iterator yields every live key of the span; its bounds are a hint, so
     it may yield any of the live keys outside the span (`stray`) too.
     */
    method CountLiveDataKeys(lo: Key, hi: Key, stray: set<Key>) returns (count: nat)
      ensures count == |DataKeys(Yielded(live, lo, hi, stray))|
    {
      count := CountDataKeys(Yielded(live, lo, hi, stray));
    }

    /**
     end_bulk_delete. The count and the range delete may fail in the library; the buffered keys are
     then deleted one by one.
     */
    method EndBulkDelete(stray: set<Key>, countFails: bool, rangeFails: bool) returns (ranged: bool)
      requires Valid()
      modifies this
      ensures ranged <==>
        && old(defer) && |old(keys)| >= MIN_RANGE && !countFails && !rangeFails
        && OnlyTheBuffer(old(live), old(keys), old(minKey), old(maxKey), stray)
      ensures live == old(progress).start - old(progress).doomed
      ensures keys == [] && !defer && !inBulk && progress == old(progress)
    {
      hide Less, Successor, InSpan;
      ranged := false;
      inBulk := false;
      if defer && |keys| != 0 {
        BoundsAreKeys(progress, live, keys, minKey, maxKey);
        if |keys| >= MIN_RANGE && minKey != [] && maxKey != [] {
          var buf := new byte[|maxKey|];
          var ok, len := DataKeySuccessor(maxKey, buf);
          if ok {
            var hi := buf[..len];
            var count := CountLiveDataKeys(minKey, hi, stray);
            CountMatchesIff(progress, live, keys, minKey, maxKey, hi, stray);
            if !countFails && count == |keys| && !rangeFails {
              RangeIsTheBuffer(progress, live, keys, minKey, maxKey, hi, Yielded(live, minKey, hi, stray));
              live := set k | k in live && !InSpan(minKey, hi, k);
              ranged := true;
              keys := [];
            }
          }
        }
        if !ranged {
          FlushBuffered();
        }
      }
      keys, defer, deletedRows, minKey, maxKey := [], false, 0, [], [];
    }

    /** A whole DELETE statement over distinct live rows. */
    method BulkDelete(ks: seq<Key>, stray: set<Key>, countFails: bool, rangeFails: bool)
      requires Distinct(ks) && forall k :: k in ks ==> k in live && IsDataKey(k)
      modifies this
      ensures live == old(live) - Keys(ks)
    {
      StartBulkDelete();
      for i := 0 to |ks|
        invariant Valid() && progress == Progress(old(live), Keys(ks[..i]))
      {
        assert ks[i] !in Keys(ks[..i]);
        DeleteRow(ks[i]);
        assert Keys(ks[..i + 1]) == Keys(ks[..i]) + {ks[i]};
      }
      assert ks[..|ks|] == ks;
      var _ := EndBulkDelete(stray, countFails, rangeFails);
    }
  }
}
