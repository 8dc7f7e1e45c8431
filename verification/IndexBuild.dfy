/**
 Online index build: scan the primary family in batches, commit and re-seek after every batch, and
 write the entries of the new indexes, refusing the ALTER when a unique index would hold a duplicate.
 */
module IndexBuild {
  import opened Bytes
  import opened KeyCodec
  import opened RowFormat
  import opened RowIndexes
  import opened Sets
  import Store

  const INDEX_BUILD_BATCH: nat := 100

  type Key = seq<byte>

  /** The keys of the primary family: one data key per row, and the meta keys. */
  ghost predicate FamilyKeys(keys: set<Key>, rows: Rows) {
    && (forall pk :: pk in rows ==> DataKey(pk) in keys)
    && (forall k :: k in keys && IsDataKey(k) ==> k[1..] in rows)
  }

  /** Where the iterator stands. */
  datatype Position = At(key: Key) | End

  ghost predicate Stands(keys: set<Key>, pos: Position) {
    pos.At? ==> pos.key in keys
  }

  /** The rows the iterator has passed. */
  ghost function Passed(rows: Rows, pos: Position): Rows {
    match pos
    case End => rows
    case At(key) => map pk | pk in rows && Less(DataKey(pk), key) :: rows[pk]
  }

  ghost function Ahead(keys: set<Key>, pos: Position): set<Key> {
    match pos
    case End => {}
    case At(key) => set k | k in keys && !Less(k, key)
  }

  /** One step of the iterator. */
  ghost predicate StepsTo(keys: set<Key>, at: Key, next: Position) {
    match next
    case At(k) => Store.IsNextAfter(keys, at, k)
    case End => forall j :: j in keys ==> !Less(at, j)
  }

  lemma StepOrder(keys: set<Key>, at: Key, next: Position, j: Key)
    requires StepsTo(keys, at, next) && j in keys
    ensures (next.End? || Less(j, next.key)) <==> j == at || Less(j, at)
  {
    hide Less;
    LessTrichotomy(j, at);
    if next.At? {
      var k := next.key;
      LessTrichotomy(j, k);
      LessIrreflexive(k);
      if Less(j, at) { LessTransitive(j, at, k); }
    }
  }

  lemma AheadShrinks(keys: set<Key>, at: Key, next: Position)
    requires StepsTo(keys, at, next) && at in keys
    ensures Ahead(keys, next) < Ahead(keys, At(at))
  {
    hide Less;
    LessIrreflexive(at);
    assert at in Ahead(keys, At(at));
    StepOrder(keys, at, next, at);
    assert at !in Ahead(keys, next);
    if next.At? {
      forall j | j in Ahead(keys, next) ensures j in Ahead(keys, At(at)) {
        StepOrder(keys, at, next, j);
      }
    }
  }

  /** Stepping off a data key passes exactly its row; stepping off a meta key passes none. */
  lemma PassedStep(keys: set<Key>, rows: Rows, at: Key, next: Position)
    requires FamilyKeys(keys, rows) && StepsTo(keys, at, next) && at in keys
    ensures IsDataKey(at) ==>
      var pk := at[1..];
      pk in rows && pk !in Passed(rows, At(at)) && Passed(rows, next) == Passed(rows, At(at))[pk := rows[pk]]
    ensures !IsDataKey(at) ==> Passed(rows, next) == Passed(rows, At(at))
  {
    hide Less;
    forall p | p in rows
      ensures (next.End? || Less(DataKey(p), next.key)) <==> DataKey(p) == at || Less(DataKey(p), at)
    {
      StepOrder(keys, at, next, DataKey(p));
    }
    LessIrreflexive(at);
    if IsDataKey(at) {
      var pk := at[1..];
      assert DataKey(pk) == at;
      forall p | p in rows && DataKey(p) == at ensures p == pk {
        assert DataKey(p)[1..] == p;
      }
    }
  }

  // ---- one index --------------------------------------------------------------------------

  /** The column keys of the passed rows without NULLs: what the seen-set remembers. */
  ghost function SeenKeys(width: nat, d: Index, rows: Rows): set<Key>
    requires AllFit(width, d, rows)
  {
    set pk | pk in rows && NoNulls(Project(width, d, rows[pk])) :: ColumnKey(width, d, rows[pk])
  }

  /** The family of an index so far, and its seen-set, are those of the passed rows. */
  ghost predicate Built(width: nat, d: Index, rows: Rows, family: set<Key>, seen: set<Key>) {
    IndexAgrees(width, d, rows, family) && (d.unique ==> seen == SeenKeys(width, d, rows))
  }

  lemma SeenStep(width: nat, d: Index, rows: Rows, pk: Key, row: Row)
    requires AllFit(width, d, rows) && FitsIndex(width, d, row) && pk !in rows
    ensures AllFit(width, d, rows[pk := row])
    ensures SeenKeys(width, d, rows[pk := row]) == SeenKeys(width, d, rows)
              + if NoNulls(Project(width, d, row)) then {ColumnKey(width, d, row)} else {}
  {
    hide FitsAll, ColumnKey, NoNulls, Project;
    var rows' := rows[pk := row];
    assert pk in rows';
    forall x | x in SeenKeys(width, d, rows) ensures x in SeenKeys(width, d, rows') {
      var q :| q in rows && NoNulls(Project(width, d, rows[q])) && x == ColumnKey(width, d, rows[q]);
      assert q in rows' && rows'[q] == rows[q];
    }
    forall x | x in SeenKeys(width, d, rows')
      ensures x in SeenKeys(width, d, rows) || (NoNulls(Project(width, d, row)) && x == ColumnKey(width, d, row))
    {
      var q :| q in rows' && NoNulls(Project(width, d, rows'[q])) && x == ColumnKey(width, d, rows'[q]);
      assert q != pk ==> q in rows && rows'[q] == rows[q];
    }
  }

  /** A key is in the seen-set exactly when an earlier row has the same value of the index. */
  lemma SeenIsTaken(width: nat, d: Index, rows: Rows, row: Row)
    requires AllFit(width, d, rows) && FitsIndex(width, d, row) && NoNulls(Project(width, d, row))
    ensures ColumnKey(width, d, row) in SeenKeys(width, d, rows) <==> Taken(width, d, rows, row, {})
  {
    hide FitsAll, ColumnKey, Project;
    forall p | p in rows
      ensures ColumnKey(width, d, rows[p]) == ColumnKey(width, d, row) <==>
        Project(width, d, rows[p]) == Project(width, d, row)
    {
      SameKeySameColumns(width, d, rows[p], row);
    }
    if Taken(width, d, rows, row, {}) {
      var p :| p in rows && p !in {} && Project(width, d, rows[p]) == Project(width, d, row);
      assert ColumnKey(width, d, rows[p]) in SeenKeys(width, d, rows);
    }
    if ColumnKey(width, d, row) in SeenKeys(width, d, rows) {
      var p :| p in rows && NoNulls(Project(width, d, rows[p])) &&
        ColumnKey(width, d, row) == ColumnKey(width, d, rows[p]);
      assert p !in {};
    }
  }

  /** The row written: the index stays in step. */
  lemma BuiltStep(width: nat, d: Index, rows: Rows, family: set<Key>, seen: set<Key>, pk: Key, row: Row)
    requires Built(width, d, rows, family, seen) && FitsIndex(width, d, row) && pk !in rows
    requires d.unique && NoNulls(Project(width, d, row)) ==> ColumnKey(width, d, row) !in seen
    ensures Built(width, d, rows[pk := row], family + {Entry(width, d, row, pk)},
                  if NoNulls(Project(width, d, row)) then seen + {ColumnKey(width, d, row)} else seen)
  {
    hide FitsAll, ColumnKey, Project, Entry, Entries, Unique, SeenKeys, Taken, NoNulls;
    AddEntry(width, d, rows, pk, row);
    SeenStep(width, d, rows, pk, row);
    if d.unique {
      if NoNulls(Project(width, d, row)) {
        SeenIsTaken(width, d, rows, row);
      }
      assert rows - {} == rows;
      UniqueKept(width, d, rows, {}, pk, row);
    }
  }

  /** A key already seen: the table breaks the constraint. */
  lemma SeenBreaksUnique(width: nat, d: Index, all: Rows, passed: Rows, pk: Key)
    requires AllFit(width, d, all) && AllFit(width, d, passed)
    requires (forall p :: p in passed ==> p in all && all[p] == passed[p]) && pk in all && pk !in passed
    requires NoNulls(Project(width, d, all[pk])) && ColumnKey(width, d, all[pk]) in SeenKeys(width, d, passed)
    ensures !Unique(width, d, all)
  {
    hide FitsAll, ColumnKey, SeenKeys;
    SeenIsTaken(width, d, passed, all[pk]);
    var p :| p in passed && p !in {} && Project(width, d, passed[p]) == Project(width, d, all[pk]);
    assert p != pk && p in all && all[p] == passed[p];
    assert Project(width, d, all[p]) == Project(width, d, all[pk]);
  }

  /** inplace_build_index_key: the comparable key of the columns, and whether one of them is NULL. */
  method BuildIndexKey(width: nat, d: Index, row: Row) returns (ik: Key, hasNull: bool)
    requires FitsIndex(width, d, row)
    ensures ik == ColumnKey(width, d, row)
    ensures hasNull <==> !NoNulls(Project(width, d, row))
  {
    hide Encode, Upright;
    var cells := Project(width, d, row);
    ik, hasNull := [], false;
    EncodeEmpty();
    for p := 0 to |d.parts|
      invariant FitsAll(d.parts[..p], cells[..p]) && ik == Encode(d.parts[..p], cells[..p])
      invariant hasNull <==> exists q :: 0 <= q < p && cells[q].Null?
    {
      assert d.parts[..p + 1] == d.parts[..p] + [d.parts[p]] && cells[..p + 1] == cells[..p] + [cells[p]];
      assert Fits(d.parts[p], cells[p]);
      EncodeSnoc(d.parts[..p], cells[..p], d.parts[p], cells[p]);
      var span := Upright(d.parts[p], cells[p]);
      if cells[p].Null? { hasNull := true; }
      if d.parts[p].desc { span := Inverted(span); }
      ik := ik + span;
    }
    assert d.parts[..|d.parts|] == d.parts && cells[..|d.parts|] == cells;
  }

  lemma EncodeEmpty()
    ensures Encode([], []) == []
  {}

  // ---- the scan ---------------------------------------------------------------------------

  /** How a step of the build comes out. `Ended`: the scan stops early, without an error. */
  datatype Outcome = Done | Duplicate(added: nat) | Interrupted | Failed | Ended

  /** Every new index is in step with the passed rows. */
  ghost predicate BuiltAll(width: nat, added: seq<Index>, rows: Rows,
                           committed: seq<set<Key>>, pending: seq<set<Key>>, seen: seq<set<Key>>) {
    && |committed| == |pending| == |seen| == |added|
    && forall a :: 0 <= a < |added| ==> Built(width, added[a], rows, committed[a] + pending[a], seen[a])
  }

  predicate AddedFit(width: nat, added: seq<Index>, rows: Rows) {
    forall a :: 0 <= a < |added| ==> AllFit(width, added[a], rows)
  }

  lemma SeekToOwnKey(keys: set<Key>, at: Key, k: Key)
    requires at in keys && Store.IsFirstFrom(keys, at, k)
    ensures k == at
  {
    LessIrreflexive(at);
    LessTrichotomy(k, at);
  }

  lemma PassedNothing(keys: set<Key>, rows: Rows, pos: Position)
    requires FamilyKeys(keys, rows)
    requires pos.End? ==> keys == {}
    requires pos.At? ==> Store.IsFirstFrom(keys, [], pos.key)
    ensures Passed(rows, pos) == map[]
  {
    forall p | p in rows ensures p !in Passed(rows, pos) {
      assert DataKey(p) in keys;
    }
  }

  /** One of the library calls numbered from lo up to hi fails. */
  ghost predicate FaultIn(faults: set<nat>, lo: nat, hi: nat) {
    exists n :: lo <= n < hi && n in faults
  }

  /** The calls made for so many rows: a write per index, a commit and a new iterator per batch. */
  function CallsFor(rows: nat, indexes: nat): nat {
    rows * indexes + 2 * (rows / INDEX_BUILD_BATCH)
  }

  lemma CallsStep(rows: nat, indexes: nat)
    ensures CallsFor(rows, indexes) + indexes ==
      CallsFor(rows + 1, indexes) - if (rows + 1) % INDEX_BUILD_BATCH == 0 then 2 else 0
  {
    assert (rows + 1) * indexes == rows * indexes + indexes;
  }

  lemma CallsGrow(few: nat, many: nat, indexes: nat)
    requires few <= many
    ensures CallsFor(few, indexes) <= CallsFor(many, indexes)
  {
    assert few * indexes <= many * indexes;
  }

  /** The statement is found killed at one of the batches of the scan. */
  ghost predicate KilledIn(killAt: set<nat>, rows: nat) {
    exists b :: b in killAt && 0 < b * INDEX_BUILD_BATCH <= rows
  }

  /** The seek after one of the batches fails while rows are still ahead. */
  ghost predicate EndsEarly(seekAt: set<nat>, rows: nat) {
    exists b :: b in seekAt && 0 < b * INDEX_BUILD_BATCH < rows
  }

  ghost predicate NoneUpTo(seekAt: set<nat>, rows: int) {
    forall b :: b in seekAt ==> !(0 < b * INDEX_BUILD_BATCH <= rows)
  }

  /** No kill, no failing call and no failing seek within the scan of so many rows. */
  ghost predicate Undisturbed(killAt: set<nat>, seekAt: set<nat>, faults: set<nat>, rows: nat, indexes: nat) {
    !KilledIn(killAt, rows) && !EndsEarly(seekAt, rows) && !FaultIn(faults, 0, CallsFor(rows, indexes) + 1)
  }

  /** The scan has just stopped at the first of the failing seeks. */
  ghost predicate StoppedAt(seekAt: set<nat>, processed: nat) {
    && 0 < processed && processed % INDEX_BUILD_BATCH == 0 && processed / INDEX_BUILD_BATCH in seekAt
    && NoneUpTo(seekAt, processed - 1)
  }

  /** One more row without a failing seek. */
  lemma NoneStep(seekAt: set<nat>, processed: nat)
    requires NoneUpTo(seekAt, processed)
    ensures (processed + 1) % INDEX_BUILD_BATCH != 0 || (processed + 1) / INDEX_BUILD_BATCH !in seekAt ==>
      NoneUpTo(seekAt, processed + 1)
  {
    forall b | b in seekAt && b * INDEX_BUILD_BATCH == processed + 1
      ensures (processed + 1) % INDEX_BUILD_BATCH == 0 && (processed + 1) / INDEX_BUILD_BATCH == b
    {}
  }

  /** What the scan kept is everything exactly when no failing seek left rows ahead. */
  lemma KeptIffNotEarly(rows: Rows, kept: Rows, visited: seq<Key>, seekAt: set<nat>, ended: bool)
    requires Within(kept, rows) && Visits(visited, kept)
    requires ended ==> StoppedAt(seekAt, |visited|)
    requires !ended ==> kept == rows && NoneUpTo(seekAt, |visited|)
    ensures kept == rows <==> !EndsEarly(seekAt, |rows|)
  {
    VisitsCount(visited, kept);
    WithinCount(kept, rows);
    if ended {
      var b := |visited| / INDEX_BUILD_BATCH;
      assert b * INDEX_BUILD_BATCH == |visited| && b in seekAt;
    }
  }

  lemma CallsNone(indexes: nat)
    ensures CallsFor(0, indexes) == 0
  {}

  lemma LastFault(faults: set<nat>, n: nat)
    requires n in faults
    ensures FaultIn(faults, 0, n + 1)
  {}

  lemma FaultWithin(faults: set<nat>, lo: nat, hi: nat, limit: nat)
    requires FaultIn(faults, lo, hi) && hi <= limit
    ensures FaultIn(faults, 0, limit)
  {}

  lemma KilledWithin(killAt: set<nat>, processed: nat, rows: nat)
    requires 0 < processed <= rows && processed % INDEX_BUILD_BATCH == 0 && processed / INDEX_BUILD_BATCH in killAt
    ensures KilledIn(killAt, rows)
  {
    assert (processed / INDEX_BUILD_BATCH) * INDEX_BUILD_BATCH == processed;
  }

  lemma {:induction false} VisitsCount(visited: seq<Key>, rows: Rows)
    requires Visits(visited, rows)
    ensures |visited| == |rows|
    decreases |visited|
  {
    if visited == [] {
      assert rows == map[];
    } else {
      var n := |visited| - 1;
      var p := visited[n];
      assert p in visited && p in rows;
      assert visited[..n] + [p] == visited;
      VisitsCount(visited[..n], rows - {p});
      assert (rows - {p}).Keys == rows.Keys - {p};
      assert |rows.Keys| == |rows| && |(rows - {p}).Keys| == |rows - {p}|;
    }
  }

  ghost predicate Within(some: Rows, rows: Rows) {
    forall p :: p in some ==> p in rows && rows[p] == some[p]
  }

  lemma WithinCount(some: Rows, rows: Rows)
    requires Within(some, rows)
    ensures |some| <= |rows| && (|some| == |rows| ==> some == rows)
  {
    assert some.Keys <= rows.Keys;
    SubsetCount(some.Keys, rows.Keys);
    assert |rows.Keys| == |rows| && |some.Keys| == |some|;
  }

  class Builder {
    const width: nat
    const added: seq<Index>
    /** The primary family: its rows, and all its keys with the meta keys among them. */
    const rows: Rows
    const keys: set<Key>
    /** Which library calls fail, by number, and how many have been made. */
    const faults: set<nat>
    var calls: nat
    /** The families of the new indexes: committed batches, and the writes of the open transaction. */
    var committed: seq<set<Key>>
    var pending: seq<set<Key>>
    var seen: seq<set<Key>>
    var pos: Position
    var processed: nat
    /** The rows handled, in order, and as a table. */
    ghost var visited: seq<Key>
    ghost var kept: Rows

    /** The new indexes are those of the rows handled. */
    ghost predicate SoFar()
      reads this
    {
      && AddedFit(width, added, rows) && Within(kept, rows) && Visits(visited, kept) && |visited| == processed
      && BuiltAll(width, added, kept, committed, pending, seen) && calls == CallsFor(processed, |added|)
    }

    ghost predicate Scanning()
      reads this
    {
      SoFar() && FamilyKeys(keys, rows) && Stands(keys, pos) && kept == Passed(rows, pos)
    }

    constructor (width: nat, added: seq<Index>, rows: Rows, keys: set<Key>, faults: set<nat>)
      ensures this.width == width && this.added == added && this.rows == rows && this.keys == keys
      ensures this.faults == faults
    {
      this.width, this.added, this.rows, this.keys, this.faults := width, added, rows, keys, faults;
      committed, pending, seen, pos, calls, processed := [], [], [], End, 0, 0;
      visited, kept := [], map[];
    }

    /** One call of the library. */
    method Call() returns (ok: bool)
      modifies this`calls
      ensures calls == old(calls) + 1 && (ok <==> old(calls) !in faults)
    {
      ok := calls !in faults;
      calls := calls + 1;
    }

    /** inplace_add_row_entries: the row the iterator stands on goes into every new index. */
    method AddRowEntries(pk: Key, ghost passed: Rows) returns (r: Outcome)
      requires AddedFit(width, added, rows) && pk in rows && pk !in passed
      requires forall p :: p in passed ==> p in rows && rows[p] == passed[p]
      requires BuiltAll(width, added, passed, committed, pending, seen)
      modifies this`pending, this`seen, this`calls
      ensures r == Done || r == Failed || r.Duplicate?
      ensures r == Done ==> calls == old(calls) + |added|
      ensures r == Failed ==> FaultIn(faults, old(calls), old(calls) + |added|)
      ensures r == Done ==> BuiltAll(width, added, passed[pk := rows[pk]], committed, pending, seen)
      ensures r.Duplicate? ==> r.added < |added| && added[r.added].unique && !Unique(width, added[r.added], rows)
    {
      hide FitsIndex, ColumnKey, Entry, Unique, Project, NoNulls, Entries, SeenKeys, Built;
      var row := rows[pk];
      for a := 0 to |added|
        invariant |committed| == |pending| == |seen| == |added| && calls == old(calls) + a
        invariant forall j :: 0 <= j < a ==>
          Built(width, added[j], passed[pk := row], committed[j] + pending[j], seen[j])
        invariant forall j :: a <= j < |added| ==>
          Built(width, added[j], passed, committed[j] + pending[j], seen[j])
      {
        var d := added[a];
        assert AllFit(width, d, rows);
        BuiltFits(width, d, passed, committed[a] + pending[a], seen[a]);
        var ik, hasNull := BuildIndexKey(width, d, row);
        if d.unique && !hasNull {
          if ik in seen[a] {
            SeenBreaksUnique(width, d, rows, passed, pk);
            return Duplicate(a);
          }
        }
        var ok := Call();
        if !ok { return Failed; }
        BuiltStep(width, d, passed, committed[a] + pending[a], seen[a], pk, row);
        BuiltIgnoresSeen(width, d, passed[pk := row], committed[a] + pending[a] + {Entry(width, d, row, pk)},
                         if !hasNull then seen[a] + {ik} else seen[a], seen[a]);
        if d.unique && !hasNull {
          seen := seen[a := seen[a] + {ik}];
        }
        assert committed[a] + (pending[a] + {ik + pk}) == committed[a] + pending[a] + {Entry(width, d, row, pk)} by {
          EntryIsConcat(width, d, row, pk);
        }
        pending := pending[a := pending[a] + {ik + pk}];
      }
      return Done;
    }

    /** inplace_batch_commit_reseek. A failing seek is not reported: the scan just ends. */
    method BatchCommitReseek(lastDataKey: Key, seekFails: bool) returns (r: Outcome)
      requires lastDataKey in keys && |committed| == |pending| == |added|
      modifies this`committed, this`pending, this`pos, this`calls
      ensures r == Failed || r == if seekFails then Ended else Done
      ensures r != Failed ==> calls == old(calls) + 2
      ensures r == Failed ==> FaultIn(faults, old(calls), old(calls) + 2)
      ensures |committed| == |pending| == |added|
      ensures forall a :: 0 <= a < |added| ==> committed[a] + pending[a] == old(committed)[a] + old(pending)[a]
      ensures r == Done ==> StepsTo(keys, lastDataKey, pos)
      ensures r != Failed ==> forall a :: 0 <= a < |added| ==> pending[a] == {}
    {
      var ok := Call();
      if !ok { return Failed; }
      Commit();
      ok := Call();
      if !ok { return Failed; }
      if seekFails { return Ended; }
      var found, k := Store.Seek(keys, lastDataKey);
      LessIrreflexive(lastDataKey);
      SeekToOwnKeyFound(keys, lastDataKey, found, k);
      pos := At(k);
      StepIterator();
      return Done;
    }

    method Commit()
      requires |committed| == |pending| == |added|
      modifies this`committed, this`pending
      ensures |committed| == |pending| == |added|
      ensures forall a :: 0 <= a < |added| ==> pending[a] == {} && committed[a] == old(committed)[a] + old(pending)[a]
    {
      var was, open := committed, pending;
      committed := seq(|added|, a requires 0 <= a < |was| == |open| == |added| => was[a] + open[a]);
      pending := seq(|added|, _ => {});
    }

    method StepIterator()
      requires pos.At?
      modifies this`pos
      ensures StepsTo(keys, old(pos).key, pos)
    {
      var found, k := Store.Next(keys, pos.key);
      pos := if found then At(k) else End;
    }

    /** The row the iterator stands on: its entries, and after a whole batch the kill check and the commit. */
    method HandleRow(at: Key, killAt: set<nat>, seekAt: set<nat>) returns (r: Outcome)
      requires Scanning() && pos == At(at) && IsDataKey(at) && NoneUpTo(seekAt, processed)
      modifies this
      ensures r.Duplicate? ==> r.added < |added| && added[r.added].unique && !Unique(width, added[r.added], rows)
      ensures r == Interrupted ==> KilledIn(killAt, |rows|)
      ensures r == Failed ==> FaultIn(faults, 0, CallsFor(|rows|, |added|) + 1)
      ensures r == Done || r == Ended ==> SoFar() && processed == old(processed) + 1
      ensures r == Done ==> Scanning() && StepsTo(keys, at, pos) && NoneUpTo(seekAt, processed)
      ensures r == Ended ==> StoppedAt(seekAt, processed)
    {
      hide BuiltAll, Passed, FamilyKeys, StepsTo, FitsIndex, Unique, Visits, FaultIn, KilledIn, CallsFor, NoneUpTo;
      var pk := at[1..];
      RowAhead(keys, rows, at, visited, processed, |added|);
      NoneStep(seekAt, processed);
      ghost var before := calls;
      r := AddRowEntries(pk, kept);
      if r == Failed { FaultWithin(faults, before, before + |added|, CallsFor(|rows|, |added|) + 1); }
      if r != Done { return; }
      VisitsStep(visited, kept, pk, rows[pk]);
      visited, kept, processed := visited + [pk], kept[pk := rows[pk]], processed + 1;
      if processed % INDEX_BUILD_BATCH == 0 && processed / INDEX_BUILD_BATCH in killAt {
        KilledWithin(killAt, processed, |rows|);
        return Interrupted;
      }
      if processed % INDEX_BUILD_BATCH == 0 {
        ghost var was, open, made := committed, pending, calls;
        BuiltLengths(width, added, kept, committed, pending, seen);
        r := BatchCommitReseek(at, processed / INDEX_BUILD_BATCH in seekAt);
        if r == Failed {
          FaultWithin(faults, made, made + 2, CallsFor(|rows|, |added|) + 1);
          return;
        }
        BuiltAllSameUnion(width, added, kept, was, open, committed, pending, seen);
        if r == Ended { return; }
      } else {
        StepIterator();
      }
      PassedStep(keys, rows, at, pos);
      StandsAfter(keys, at, pos);
      return Done;
    }

    /**
     inplace_alter_table from the first key on, with inplace_scan_and_build. `killAt` says at which
     batches the statement is found killed, `seekAt` after which batches the seek fails.
     */
    method ScanAndBuild(killAt: set<nat>, seekAt: set<nat>) returns (r: Outcome)
      requires FamilyKeys(keys, rows) && AddedFit(width, added, rows)
      modifies this
      ensures r != Ended
      ensures r == Done ==> BuiltAll(width, added, kept, committed, pending, seen)
      ensures r == Done ==> forall a :: 0 <= a < |added| ==> pending[a] == {}
      ensures r == Done ==> Visits(visited, kept) && Within(kept, rows)
      ensures r == Done ==> (kept == rows <==> !EndsEarly(seekAt, |rows|))
      ensures r.Duplicate? ==> r.added < |added| && added[r.added].unique && !Unique(width, added[r.added], rows)
      ensures r == Interrupted ==> KilledIn(killAt, |rows|)
      ensures r == Failed ==> FaultIn(faults, 0, CallsFor(|rows|, |added|) + 1)
    {
      hide Built, Passed, FamilyKeys, StepsTo, FitsIndex, Unique, Visits, FaultIn, KilledIn, CallsFor, NoneUpTo,
           StoppedAt, EndsEarly, Within, Less;
      StartScan(seekAt);
      var ended := false;
      while pos.At? && !ended
        invariant SoFar()
        invariant !ended ==> Scanning() && NoneUpTo(seekAt, processed)
        invariant ended ==> StoppedAt(seekAt, processed)
        decreases !ended, Ahead(keys, pos)
      {
        var at := pos.key;
        if IsDataKey(at) {
          r := HandleRow(at, killAt, seekAt);
          if r == Ended { ended := true; continue; }
          if r != Done { return; }
        } else {
          StepIterator();
          PassedStep(keys, rows, at, pos);
          StandsAfter(keys, at, pos);
        }
        AheadShrinks(keys, at, pos);
      }
      PassedAll(rows);
      KeptIffNotEarly(rows, kept, visited, seekAt, ended);
      r := FinalCommit();
    }

    method FinalCommit() returns (r: Outcome)
      requires SoFar()
      modifies this`committed, this`pending, this`calls
      ensures r == Done || r == Failed
      ensures r == Done ==> BuiltAll(width, added, kept, committed, pending, seen)
      ensures r == Done ==> forall a :: 0 <= a < |added| ==> pending[a] == {}
      ensures r == Failed ==> FaultIn(faults, 0, CallsFor(|rows|, |added|) + 1)
    {
      hide BuiltAll, AddedFit, Visits, FaultIn, CallsFor, Within;
      ghost var was, open := committed, pending;
      BuiltLengths(width, added, kept, committed, pending, seen);
      VisitsCount(visited, kept);
      WithinCount(kept, rows);
      CallsGrow(processed, |rows|, |added|);
      var ok := Call();
      if !ok {
        LastFault(faults, calls - 1);
        FaultWithin(faults, 0, calls, CallsFor(|rows|, |added|) + 1);
        return Failed;
      }
      Commit();
      BuiltAllSameUnion(width, added, kept, was, open, committed, pending, seen);
      return Done;
    }

    /** Seek to the first key with nothing written. */
    method StartScan(ghost seekAt: set<nat>)
      requires FamilyKeys(keys, rows) && AddedFit(width, added, rows)
      modifies this
      ensures Scanning() && NoneUpTo(seekAt, processed)
    {
      hide FitsIndex;
      committed := seq(|added|, _ => {});
      pending := seq(|added|, _ => {});
      seen := seq(|added|, _ => {});
      visited, kept, calls, processed := [], map[], 0, 0;
      CallsNone(|added|);
      var found, k := Store.Seek(keys, []);
      pos := if found then At(k) else End;
      PassedNothing(keys, rows, pos);
      forall a | 0 <= a < |added| ensures Built(width, added[a], map[], {}, {}) {
        BuiltNothing(width, added[a]);
      }
    }
  }

  /** Handling the row of a data key stays within the rows and the calls of the whole scan. */
  lemma RowAhead(keys: set<Key>, rows: Rows, at: Key, visited: seq<Key>, processed: nat, indexes: nat)
    requires FamilyKeys(keys, rows) && at in keys && IsDataKey(at) && Visits(visited, Passed(rows, At(at)))
    requires |visited| == processed
    ensures at[1..] in rows && at[1..] !in Passed(rows, At(at)) && processed + 1 <= |rows|
    ensures CallsFor(processed, indexes) + indexes ==
      CallsFor(processed + 1, indexes) - if (processed + 1) % INDEX_BUILD_BATCH == 0 then 2 else 0
    ensures CallsFor(processed + 1, indexes) <= CallsFor(|rows|, indexes)
  {
    hide FamilyKeys, Visits, CallsFor, Less;
    var next := NextPosition(keys, at);
    PassedStep(keys, rows, at, next);
    PassedAreRows(rows, next);
    VisitsCount(visited, Passed(rows, At(at)));
    WithinCount(Passed(rows, next), rows);
    CallsStep(processed, indexes);
    CallsGrow(processed + 1, |rows|, indexes);
  }

  ghost function NextPosition(keys: set<Key>, at: Key): (next: Position)
    ensures StepsTo(keys, at, next)
  {
    var later := set j | j in keys && Less(at, j);
    if later == {} then
      assert forall j :: j in keys && Less(at, j) ==> j in later;
      End
    else
      LeastExists(later);
      var k :| k in later && forall j :: j in later ==> !Less(j, k);
      assert forall j :: j in keys && Less(at, j) ==> j in later;
      At(k)
  }

  lemma {:induction false} LeastExists(s: set<Key>)
    requires s != {}
    ensures exists k :: k in s && forall j :: j in s ==> !Less(j, k)
  {
    hide Less;
    var x :| x in s;
    LessIrreflexive(x);
    var t := s - {x};
    if t == {} {
      assert s == {x};
    } else {
      LeastExists(t);
      var y :| y in t && forall j :: j in t ==> !Less(j, y);
      var k := if Less(x, y) then x else y;
      forall j | j in s ensures !Less(j, k) {
        if j == x {
        } else if Less(x, y) && Less(j, x) {
          LessTransitive(j, x, y);
        }
      }
    }
  }

  lemma StandsAfter(keys: set<Key>, at: Key, next: Position)
    requires StepsTo(keys, at, next)
    ensures Stands(keys, next)
  {}

  lemma PassedAll(rows: Rows)
    ensures Passed(rows, End) == rows
  {}

  lemma PassedAreRows(rows: Rows, pos: Position)
    ensures Within(Passed(rows, pos), rows)
  {}

  lemma VisitsStep(visited: seq<Key>, rows: Rows, pk: Key, row: Row)
    requires Visits(visited, rows) && pk !in rows
    ensures Visits(visited + [pk], rows[pk := row])
  {
    assert pk !in visited;
  }

  lemma BuiltNothing(width: nat, d: Index)
    ensures Built(width, d, map[], {}, {})
  {}

  lemma BuiltLengths(width: nat, added: seq<Index>, rows: Rows,
                     committed: seq<set<Key>>, pending: seq<set<Key>>, seen: seq<set<Key>>)
    requires BuiltAll(width, added, rows, committed, pending, seen)
    ensures |committed| == |pending| == |seen| == |added|
  {
    hide Built;
  }

  lemma BuiltAllSameUnion(width: nat, added: seq<Index>, rows: Rows, was: seq<set<Key>>, open: seq<set<Key>>,
                          committed: seq<set<Key>>, pending: seq<set<Key>>, seen: seq<set<Key>>)
    requires BuiltAll(width, added, rows, was, open, seen)
    requires |committed| == |pending| == |added|
    requires forall a :: 0 <= a < |added| ==> committed[a] + pending[a] == was[a] + open[a]
    ensures BuiltAll(width, added, rows, committed, pending, seen)
  {
    hide Built;
  }

  // ---- the whole ALTER --------------------------------------------------------------------

  /** The schema with the new indexes. */
  function Extended(s: Schema, added: seq<Index>): Schema {
    s.(indexes := s.indexes + added)
  }

  /** Two rows agree on the non-NULL columns of one of the new unique indexes. */
  ghost predicate Broken(width: nat, added: seq<Index>, rows: Rows)
    requires AddedFit(width, added, rows)
  {
    exists a :: 0 <= a < |added| && added[a].unique && !Unique(width, added[a], rows)
  }

  /**
   ADD INDEX on a table nobody else writes. Success leaves the new indexes exact for the rows `kept`,
   which are all rows exactly when no failing seek cut the scan short; then the table is exactly a table
   of the extended schema, as if every row had been inserted with the new indexes in place. It is
   interrupted only by a kill at one of its batches, and fails only with one of its library calls. When
   nothing of the kind happens it reports a duplicate exactly when the rows break a new unique index.
   */
  method AddIndexes(s: Schema, rows: Rows, families: seq<set<Key>>, nextRowId: nat, added: seq<Index>,
                    keys: set<Key>, killAt: set<nat>, seekAt: set<nat>, faults: set<nat>)
    returns (r: Outcome, built: seq<set<Key>>, ghost kept: Rows)
    requires Consistent(s, rows, families, nextRowId) && FamilyKeys(keys, rows)
    requires WellFormed(Extended(s, added)) && AddedFit(s.width, added, rows)
    ensures r != Ended
    ensures r == Done ==> Within(kept, rows) && |built| == |added|
    ensures r == Done ==> forall a :: 0 <= a < |added| ==> IndexAgrees(s.width, added[a], kept, built[a])
    ensures r == Done ==> (kept == rows <==> !EndsEarly(seekAt, |rows|))
    ensures r == Done && kept == rows ==> Consistent(Extended(s, added), rows, families + built, nextRowId)
    ensures r.Duplicate? ==> r.added < |added| && added[r.added].unique && !Unique(s.width, added[r.added], rows)
    ensures r == Interrupted ==> KilledIn(killAt, |rows|)
    ensures r == Failed ==> FaultIn(faults, 0, CallsFor(|rows|, |added|) + 1)
    ensures !EndsEarly(seekAt, |rows|) && Broken(s.width, added, rows) ==> r != Done
    ensures Undisturbed(killAt, seekAt, faults, |rows|, |added|) ==>
      && (r.Duplicate? <==> Broken(s.width, added, rows))
      && (r == Done <==> !Broken(s.width, added, rows))
  {
    hide FamilyKeys, AllFit, Unique, Entries, Keyed, SeenKeys, IndexOf, KilledIn, FaultIn, CallsFor, EndsEarly, Within;
    var b := new Builder(s.width, added, rows, keys, faults);
    r := b.ScanAndBuild(killAt, seekAt);
    built, kept := [], b.kept;
    if r == Done {
      built := b.committed;
      forall a | 0 <= a < |added| ensures IndexAgrees(s.width, added[a], kept, built[a]) {
        assert Built(s.width, added[a], kept, b.committed[a] + b.pending[a], b.seen[a]);
        assert b.committed[a] + b.pending[a] == b.committed[a];
      }
      if kept == rows {
        ExtendedIsConsistent(s, rows, families, nextRowId, added, built);
      }
    }
  }

  lemma ExtendedIsConsistent(s: Schema, rows: Rows, families: seq<set<Key>>, nextRowId: nat, added: seq<Index>,
                             built: seq<set<Key>>)
    requires Consistent(s, rows, families, nextRowId) && WellFormed(Extended(s, added)) && |built| == |added|
    requires forall a :: 0 <= a < |added| ==> IndexAgrees(s.width, added[a], rows, built[a])
    ensures Consistent(Extended(s, added), rows, families + built, nextRowId)
  {
    hide Entries, Unique, PkFromRecord, FitsIndex, ComparableKeyLength, IndexOf;
    var e, f := Extended(s, added), families + built;
    var n := |s.indexes|;
    forall pk | pk in rows ensures RowFits(e, rows[pk]) {
      forall i | 0 <= i < |e.indexes| ensures FitsIndex(e.width, e.indexes[i], rows[pk]) {
        if i >= n {
          assert IndexAgrees(s.width, added[i - n], rows, built[i - n]);
        }
      }
    }
    forall pk | pk in rows ensures |pk| == PkLength(e) && pk == PkFromRecord(e, rows[pk], pk) {
      SamePk(s, e, rows[pk], pk);
    }
    forall i | 0 <= i < |f| ensures IndexAgrees(e.width, e.indexes[i], rows, f[i]) {
      if i >= n {
        assert e.indexes[i] == added[i - n] && f[i] == built[i - n];
      } else {
        assert IndexAgrees(s.width, s.indexes[i], rows, families[i]);
      }
    }
  }

  lemma SamePk(s: Schema, e: Schema, row: Row, pk: Key)
    requires RowFits(s, row) && RowFits(e, row) && e.pk == s.pk && e.width == s.width
    ensures PkFromRecord(s, row, pk) == PkFromRecord(e, row, pk)
  {}

  /** The rows are those of the list, each listed once. */
  ghost predicate Visits(visited: seq<Key>, rows: Rows) {
    && (forall i, j :: 0 <= i < j < |visited| ==> visited[i] != visited[j])
    && forall p :: p in visited <==> p in rows
  }

  lemma BuiltFits(width: nat, d: Index, rows: Rows, family: set<Key>, seen: set<Key>)
    requires Built(width, d, rows, family, seen)
    ensures AllFit(width, d, rows) && (d.unique ==> seen == SeenKeys(width, d, rows))
  {}

  lemma BuiltIgnoresSeen(width: nat, d: Index, rows: Rows, family: set<Key>, seen: set<Key>, seen': set<Key>)
    requires Built(width, d, rows, family, seen)
    ensures !d.unique || seen == seen' ==> Built(width, d, rows, family, seen')
  {}

  lemma EntryIsConcat(width: nat, d: Index, row: Row, pk: Key)
    requires FitsIndex(width, d, row)
    ensures Entry(width, d, row, pk) == ColumnKey(width, d, row) + pk
  {}

  lemma SeekToOwnKeyFound(keys: set<Key>, at: Key, found: bool, k: Key)
    requires at in keys && !Less(at, at)
    requires found ==> Store.IsFirstFrom(keys, at, k)
    requires !found ==> forall j :: j in keys ==> Less(j, at)
    ensures found && k == at
  {
    if found {
      SeekToOwnKey(keys, at, k);
    }
  }
}
