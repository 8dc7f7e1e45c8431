/**
 Row maintenance: write_row, update_row and delete_row over the primary rows and the regular
 secondary indexes, with the primary-key and unique checks.

 A row is a sequence of cells, one per column. The primary family maps comparable primary keys to
 rows; an index family is a set of entries, each the comparable key of the indexed columns followed
 by the primary key. Over every run the index families are exactly what the rows say.
 */
module RowIndexes {
  import opened Bytes
  import opened KeyCodec
  import Store

  const HIDDEN_PK_SIZE: nat := 8
  const ROW_ID_LIMIT: nat := 0x1_0000_0000_0000_0000

  type Row = seq<Cell>

  datatype Index = Index(parts: seq<KeyPart>, columns: seq<nat>, unique: bool)

  datatype PrimaryKey = UserKey(index: Index) | Hidden

  datatype Schema = Schema(width: nat, pk: PrimaryKey, indexes: seq<Index>)

  predicate IndexOf(width: nat, d: Index) {
    |d.parts| == |d.columns| && forall i :: 0 <= i < |d.columns| ==> d.columns[i] < width
  }

  predicate WellFormed(s: Schema) {
    && (s.pk.UserKey? ==> IndexOf(s.width, s.pk.index))
    && forall i :: 0 <= i < |s.indexes| ==> IndexOf(s.width, s.indexes[i])
  }

  /** The cells of the indexed columns. */
  function Project(width: nat, d: Index, row: Row): (cells: seq<Cell>)
    requires IndexOf(width, d) && |row| == width
    ensures |cells| == |d.parts|
  {
    seq(|d.columns|, i requires 0 <= i < |d.columns| => row[d.columns[i]])
  }

  predicate FitsIndex(width: nat, d: Index, row: Row) {
    IndexOf(width, d) && |row| == width && FitsAll(d.parts, Project(width, d, row))
  }

  predicate RowFits(s: Schema, row: Row) {
    && |row| == s.width
    && (s.pk.UserKey? ==> FitsIndex(s.width, s.pk.index, row))
    && forall i :: 0 <= i < |s.indexes| ==> FitsIndex(s.width, s.indexes[i], row)
  }

  /** make_comparable_key over all parts of the index. */
  function ColumnKey(width: nat, d: Index, row: Row): (k: seq<byte>)
    requires FitsIndex(width, d, row)
    ensures |k| == ComparableKeyLength(d.parts)
  {
    Encode(d.parts, Project(width, d, row))
  }

  /** pk_from_record: the key columns, or for a hidden key the one the handler stands on. */
  function PkFromRecord(s: Schema, row: Row, current: seq<byte>): seq<byte>
    requires RowFits(s, row)
  {
    if s.pk.UserKey? then ColumnKey(s.width, s.pk.index, row) else current
  }

  function PkLength(s: Schema): nat {
    if s.pk.UserKey? then ComparableKeyLength(s.pk.index.parts) else HIDDEN_PK_SIZE
  }

  function Entry(width: nat, d: Index, row: Row, pk: seq<byte>): seq<byte>
    requires FitsIndex(width, d, row)
  {
    ColumnKey(width, d, row) + pk
  }

  predicate NoNulls(cells: seq<Cell>) {
    forall i :: 0 <= i < |cells| ==> cells[i].Image?
  }

  // ---- what the families have to hold -----------------------------------------------------

  type Rows = map<seq<byte>, Row>

  predicate AllFit(width: nat, d: Index, rows: Rows) {
    forall pk :: pk in rows ==> FitsIndex(width, d, rows[pk])
  }

  /** One entry for every row. */
  ghost function Entries(width: nat, d: Index, rows: Rows): set<seq<byte>>
    requires AllFit(width, d, rows)
  {
    set pk | pk in rows :: Entry(width, d, rows[pk], pk)
  }

  /** No two rows share an all-non-NULL value of the index. */
  ghost predicate Unique(width: nat, d: Index, rows: Rows)
    requires AllFit(width, d, rows)
  {
    forall p, q :: p in rows && q in rows && p != q && NoNulls(Project(width, d, rows[p])) ==>
      Project(width, d, rows[p]) != Project(width, d, rows[q])
  }

  /** Keys are of the key's width, and a row is stored under its own key. */
  ghost predicate Keyed(s: Schema, rows: Rows, nextRowId: nat) {
    && (forall pk :: pk in rows ==> RowFits(s, rows[pk]))
    && (forall pk :: pk in rows ==> |pk| == PkLength(s) && pk == PkFromRecord(s, rows[pk], pk))
    && (s.pk.Hidden? ==> forall pk :: pk in rows ==> FromBigEndian(pk) < nextRowId)
  }

  ghost predicate IndexAgrees(width: nat, d: Index, rows: Rows, family: set<seq<byte>>) {
    AllFit(width, d, rows) && family == Entries(width, d, rows) && (d.unique ==> Unique(width, d, rows))
  }

  /** The invariant of a table. */
  ghost predicate Consistent(s: Schema, rows: Rows, families: seq<set<seq<byte>>>, nextRowId: nat) {
    && WellFormed(s) && |families| == |s.indexes|
    && Keyed(s, rows, nextRowId)
    && forall i :: 0 <= i < |families| ==> IndexAgrees(s.width, s.indexes[i], rows, families[i])
  }

  // ---- consequences of the invariant ------------------------------------------------------

  lemma EntryParts(width: nat, d: Index, r: Row, p: seq<byte>, r': Row, p': seq<byte>)
    requires FitsIndex(width, d, r) && FitsIndex(width, d, r')
    ensures Entry(width, d, r, p) == Entry(width, d, r', p') <==>
              p == p' && Project(width, d, r) == Project(width, d, r')
    ensures ColumnKey(width, d, r) <= Entry(width, d, r', p') <==> Project(width, d, r) == Project(width, d, r')
  {
    hide Encode, Project, FitsAll;
    var k, k' := ColumnKey(width, d, r), ColumnKey(width, d, r');
    EncodeOrder(d.parts, Project(width, d, r), Project(width, d, r'));
    assert (k + p)[..|k|] == k && (k + p)[|k|..] == p;
    assert (k' + p')[..|k'|] == k' && (k' + p')[|k'|..] == p';
  }

  /** Rows with the same primary-key columns are one row. */
  lemma PrimaryKeyIsUnique(s: Schema, rows: Rows, nextRowId: nat, p: seq<byte>, q: seq<byte>)
    requires Keyed(s, rows, nextRowId) && s.pk.UserKey? && p in rows && q in rows
    requires Project(s.width, s.pk.index, rows[p]) == Project(s.width, s.pk.index, rows[q])
    ensures p == q
  {}

  /** Every row has its own entry, so an index holds exactly as many entries as there are rows. */
  lemma {:induction false} OneEntryPerRow(width: nat, d: Index, rows: Rows)
    requires AllFit(width, d, rows)
    ensures |Entries(width, d, rows)| == |rows|
    decreases |rows|
  {
    if rows == map[] {
      assert Entries(width, d, rows) == {};
    } else {
      var pk :| pk in rows;
      RemoveEntry(width, d, rows, pk);
      OneEntryPerRow(width, d, rows - {pk});
    }
  }

  lemma RemoveEntry(width: nat, d: Index, rows: Rows, pk: seq<byte>)
    requires AllFit(width, d, rows) && pk in rows
    ensures Entry(width, d, rows[pk], pk) in Entries(width, d, rows)
    ensures Entries(width, d, rows - {pk}) == Entries(width, d, rows) - {Entry(width, d, rows[pk], pk)}
    ensures |rows - {pk}| == |rows| - 1
  {
    hide Entry, FitsIndex;
    var e := Entry(width, d, rows[pk], pk);
    forall q | q in rows && q != pk ensures Entry(width, d, rows[q], q) != e {
      EntryParts(width, d, rows[q], q, rows[pk], pk);
    }
    assert (rows - {pk}).Keys == rows.Keys - {pk};
    var a, b := Entries(width, d, rows - {pk}), Entries(width, d, rows);
    forall x | x in b && x != e ensures x in a {
      var q :| q in rows && x == Entry(width, d, rows[q], q);
      assert q in rows - {pk};
    }
    forall x | x in a ensures x in b && x != e {
      var q :| q in rows - {pk} && x == Entry(width, d, (rows - {pk})[q], q);
      assert q in rows;
    }
  }

  lemma AddEntry(width: nat, d: Index, rows: Rows, pk: seq<byte>, row: Row)
    requires AllFit(width, d, rows) && pk !in rows && FitsIndex(width, d, row)
    ensures AllFit(width, d, rows[pk := row])
    ensures Entries(width, d, rows[pk := row]) == Entries(width, d, rows) + {Entry(width, d, row, pk)}
  {
    hide Entry, FitsIndex;
    var rows' := rows[pk := row];
    var a, b := Entries(width, d, rows'), Entries(width, d, rows);
    assert pk in rows';
    forall x | x in b ensures x in a {
      var q :| q in rows && x == Entry(width, d, rows[q], q);
      assert q in rows' && rows'[q] == rows[q];
    }
    forall x | x in a ensures x in b || x == Entry(width, d, row, pk) {
      var q :| q in rows' && x == Entry(width, d, rows'[q], q);
      assert q != pk ==> q in rows && rows'[q] == rows[q];
    }
  }

  /** A row takes the place of another, possibly under another key. */
  function Moved(rows: Rows, oldPk: seq<byte>, newPk: seq<byte>, row: Row): Rows {
    (rows - {oldPk})[newPk := row]
  }

  lemma MoveEntry(width: nat, d: Index, rows: Rows, oldPk: seq<byte>, newPk: seq<byte>, row: Row)
    requires AllFit(width, d, rows) && FitsIndex(width, d, row)
    requires oldPk in rows && (newPk == oldPk || newPk !in rows)
    ensures AllFit(width, d, Moved(rows, oldPk, newPk, row))
    ensures Entry(width, d, rows[oldPk], oldPk) in Entries(width, d, rows)
    ensures Entries(width, d, Moved(rows, oldPk, newPk, row))
         == Entries(width, d, rows) - {Entry(width, d, rows[oldPk], oldPk)} + {Entry(width, d, row, newPk)}
  {
    hide Entry, FitsIndex;
    RemoveEntry(width, d, rows, oldPk);
    AddEntry(width, d, rows - {oldPk}, newPk, row);
  }

  /** Some row other than the one under key `but` has the value of the index that row has. */
  ghost predicate Taken(width: nat, d: Index, rows: Rows, row: Row, but: set<seq<byte>>)
    requires AllFit(width, d, rows) && FitsIndex(width, d, row)
  {
    exists p :: p in rows && p !in but && Project(width, d, rows[p]) == Project(width, d, row)
  }

  lemma UniqueKept(width: nat, d: Index, rows: Rows, but: set<seq<byte>>, newPk: seq<byte>, row: Row)
    requires AllFit(width, d, rows) && FitsIndex(width, d, row) && Unique(width, d, rows)
    requires NoNulls(Project(width, d, row)) ==> !Taken(width, d, rows, row, but)
    requires AllFit(width, d, (rows - but)[newPk := row])
    ensures Unique(width, d, (rows - but)[newPk := row])
  {
    hide FitsAll;
    var rows' := (rows - but)[newPk := row];
    forall p, q | p in rows' && q in rows' && p != q && NoNulls(Project(width, d, rows'[p]))
      ensures Project(width, d, rows'[p]) != Project(width, d, rows'[q])
    {
      assert p != newPk ==> p in rows && p !in but && rows'[p] == rows[p];
      assert q != newPk ==> q in rows && q !in but && rows'[q] == rows[q];
    }
  }

  // ---- what each operation is allowed to do -----------------------------------------------

  /** The unique check of one index lets the row in. */
  ghost predicate Admits(width: nat, d: Index, rows: Rows, row: Row, but: set<seq<byte>>) {
    && AllFit(width, d, rows) && FitsIndex(width, d, row)
    && (d.unique && NoNulls(Project(width, d, row)) ==> !Taken(width, d, rows, row, but))
  }

  ghost predicate AllAdmit(s: Schema, rows: Rows, row: Row, but: set<seq<byte>>) {
    forall i :: 0 <= i < |s.indexes| ==> Admits(s.width, s.indexes[i], rows, row, but)
  }

  /** The rows break no unique index of the schema. */
  ghost predicate Obeys(s: Schema, rows: Rows) {
    forall i :: 0 <= i < |s.indexes| ==>
      AllFit(s.width, s.indexes[i], rows) && (s.indexes[i].unique ==> Unique(s.width, s.indexes[i], rows))
  }

  /**
   An insert is allowed when it replaces no row and the table with the row still obeys its indexes.
   REPLACE into a table without secondary indexes overwrites instead of reporting a duplicate.
   */
  ghost predicate InsertAllowed(s: Schema, rows: Rows, row: Row, pk: seq<byte>, replace: bool) {
    (pk in rows ==> replace && s.indexes == []) && Obeys(s, rows[pk := row])
  }

  /** An update is allowed when it takes no other row's place and the table after it still obeys its indexes. */
  ghost predicate UpdateAllowed(s: Schema, rows: Rows, row: Row, oldPk: seq<byte>, newPk: seq<byte>) {
    (newPk != oldPk ==> newPk !in rows) && Obeys(s, Moved(rows, oldPk, newPk, row))
  }

  /** A unique index admits a row in place of those under `but` exactly when the rows are unique with it. */
  lemma AdmitsIff(width: nat, d: Index, rows: Rows, but: set<seq<byte>>, pk: seq<byte>, row: Row)
    requires AllFit(width, d, rows) && FitsIndex(width, d, row) && pk !in rows - but
    requires d.unique && Unique(width, d, rows)
    ensures AllFit(width, d, (rows - but)[pk := row])
    ensures Admits(width, d, rows, row, but) <==> Unique(width, d, (rows - but)[pk := row])
  {
    hide FitsAll, Project;
    var rows' := (rows - but)[pk := row];
    forall p | p in rows' ensures FitsIndex(width, d, rows'[p]) {
      assert p != pk ==> p in rows && rows'[p] == rows[p];
    }
    if Admits(width, d, rows, row, but) {
      UniqueKept(width, d, rows, but, pk, row);
    } else {
      var p :| p in rows && p !in but && Project(width, d, rows[p]) == Project(width, d, row);
      assert p in rows' && pk in rows' && rows'[p] == rows[p] && p != pk;
    }
  }

  lemma AllAdmitIff(s: Schema, rows: Rows, families: seq<set<seq<byte>>>, nextRowId: nat, but: set<seq<byte>>,
                    pk: seq<byte>, row: Row)
    requires Consistent(s, rows, families, nextRowId) && RowFits(s, row) && (pk !in rows - but || s.indexes == [])
    ensures AllAdmit(s, rows, row, but) <==> Obeys(s, (rows - but)[pk := row])
  {
    hide FitsIndex, Unique, Entries, Taken, NoNulls, Keyed, Project;
    var rows' := (rows - but)[pk := row];
    forall i | 0 <= i < |s.indexes|
      ensures AllFit(s.width, s.indexes[i], rows')
      ensures s.indexes[i].unique ==>
        (Admits(s.width, s.indexes[i], rows, row, but) <==> Unique(s.width, s.indexes[i], rows'))
      ensures !s.indexes[i].unique ==> Admits(s.width, s.indexes[i], rows, row, but)
    {
      var d := s.indexes[i];
      assert IndexAgrees(s.width, d, rows, families[i]);
      FitsWith(s.width, d, rows, but, pk, row);
      if d.unique { AdmitsIff(s.width, d, rows, but, pk, row); }
    }
  }

  lemma FitsWith(width: nat, d: Index, rows: Rows, but: set<seq<byte>>, pk: seq<byte>, row: Row)
    requires AllFit(width, d, rows) && FitsIndex(width, d, row)
    ensures AllFit(width, d, (rows - but)[pk := row])
  {
    hide FitsIndex;
    var rows' := (rows - but)[pk := row];
    forall p | p in rows' ensures FitsIndex(width, d, rows'[p]) {
      assert p != pk ==> p in rows && rows'[p] == rows[p];
    }
  }

  /** Columns the statement does not write keep their value. */
  predicate KeepsUnwritten(old_: Row, new_: Row, written: set<nat>) {
    |old_| == |new_| && forall c :: 0 <= c < |old_| && c !in written ==> old_[c] == new_[c]
  }

  function NewPk(s: Schema, row: Row, nextRowId: nat): seq<byte>
    requires RowFits(s, row)
  {
    PkFromRecord(s, row, BigEndian(nextRowId, HIDDEN_PK_SIZE))
  }

  datatype Op =
    | Insert(row: Row, replace: bool)
    | Update(pk: seq<byte>, row: Row, written: set<nat>)
    | Delete(pk: seq<byte>)

  datatype State = State(rows: Rows, nextRowId: nat)

  /** A statement the server can issue: its record fits the table and it stands on a row it has read. */
  predicate Issuable(s: Schema, st: State, op: Op) {
    match op
    case Insert(row, _) => RowFits(s, row) && (s.pk.Hidden? ==> st.nextRowId < ROW_ID_LIMIT)
    case Update(pk, row, written) => pk in st.rows && RowFits(s, row) && KeepsUnwritten(st.rows[pk], row, written)
    case Delete(pk) => pk in st.rows
  }

  /** The table of rows alone, with the constraints of the schema. */
  ghost function Step(s: Schema, st: State, op: Op): State {
    if !Issuable(s, st, op) then st
    else
      match op
      case Insert(row, replace) =>
        var pk := NewPk(s, row, st.nextRowId);
        State(if InsertAllowed(s, st.rows, row, pk, replace) then st.rows[pk := row] else st.rows,
              if s.pk.Hidden? then st.nextRowId + 1 else st.nextRowId)
      case Update(pk, row, _) =>
        var newPk := PkFromRecord(s, row, pk);
        if UpdateAllowed(s, st.rows, row, pk, newPk) then st.(rows := Moved(st.rows, pk, newPk, row)) else st
      case Delete(pk) => st.(rows := st.rows - {pk})
  }

  ghost function Steps(s: Schema, st: State, ops: seq<Op>): State {
    if ops == [] then st else Step(s, Steps(s, st, ops[..|ops| - 1]), ops[|ops| - 1])
  }

  // ---- the maintained families ------------------------------------------------------------

  ghost predicate Added(s: Schema, was: seq<set<seq<byte>>>, now: seq<set<seq<byte>>>, row: Row, pk: seq<byte>)
    requires RowFits(s, row)
  {
    |was| == |now| == |s.indexes| &&
    forall i :: 0 <= i < |now| ==> now[i] == was[i] + {Entry(s.width, s.indexes[i], row, pk)}
  }

  ghost predicate Removed(s: Schema, was: seq<set<seq<byte>>>, now: seq<set<seq<byte>>>, row: Row, pk: seq<byte>)
    requires RowFits(s, row)
  {
    |was| == |now| == |s.indexes| &&
    forall i :: 0 <= i < |now| ==> now[i] == was[i] - {Entry(s.width, s.indexes[i], row, pk)}
  }

  ghost predicate Replaced(s: Schema, was: seq<set<seq<byte>>>, now: seq<set<seq<byte>>>,
                           oldRow: Row, oldPk: seq<byte>, row: Row, newPk: seq<byte>)
    requires RowFits(s, oldRow) && RowFits(s, row)
  {
    |was| == |now| == |s.indexes| &&
    forall i :: 0 <= i < |now| ==>
      now[i] == was[i] - {Entry(s.width, s.indexes[i], oldRow, oldPk)} + {Entry(s.width, s.indexes[i], row, newPk)}
  }

  /** The key a new row is given: of the right width, its own, and for a hidden key not in use. */
  lemma NewPkIsNew(s: Schema, rows: Rows, families: seq<set<seq<byte>>>, nextRowId: nat, row: Row)
    requires Consistent(s, rows, families, nextRowId) && RowFits(s, row)
    requires s.pk.Hidden? ==> nextRowId < ROW_ID_LIMIT
    ensures var pk := NewPk(s, row, nextRowId);
      |pk| == PkLength(s) && pk == PkFromRecord(s, row, pk) &&
      (s.pk.Hidden? ==> pk !in rows && FromBigEndian(pk) < nextRowId + 1)
    ensures s.pk.Hidden? ==> Consistent(s, rows, families, nextRowId + 1)
    ensures |families| == |s.indexes|
  {
    hide FitsIndex, IndexAgrees, ComparableKeyLength, BigEndian, FromBigEndian;
    if s.pk.Hidden? {
      HiddenIsNew(s, rows, nextRowId);
    }
  }

  lemma HiddenIsNew(s: Schema, rows: Rows, nextRowId: nat)
    requires Keyed(s, rows, nextRowId) && s.pk.Hidden? && nextRowId < ROW_ID_LIMIT
    ensures BigEndian(nextRowId, HIDDEN_PK_SIZE) !in rows
    ensures FromBigEndian(BigEndian(nextRowId, HIDDEN_PK_SIZE)) == nextRowId
  {
    ConcreteWidths();
    BigEndianRoundTrip(nextRowId, HIDDEN_PK_SIZE);
  }

  lemma InsertKeeps(s: Schema, rows: Rows, was: seq<set<seq<byte>>>, now: seq<set<seq<byte>>>,
                    nextRowId: nat, row: Row, pk: seq<byte>, nextRowId': nat)
    requires Consistent(s, rows, was, nextRowId) && RowFits(s, row) && nextRowId <= nextRowId'
    requires pk !in rows || s.indexes == []
    requires |pk| == PkLength(s) && pk == PkFromRecord(s, row, pk)
    requires s.pk.Hidden? ==> FromBigEndian(pk) < nextRowId'
    requires AllAdmit(s, rows, row, {}) && Added(s, was, now, row, pk)
    ensures Consistent(s, rows[pk := row], now, nextRowId')
  {
    hide FitsIndex, Entry, Unique, Entries, Taken, PkFromRecord, ComparableKeyLength;
    var rows' := rows[pk := row];
    forall i | 0 <= i < |now| ensures IndexAgrees(s.width, s.indexes[i], rows', now[i]) {
      var d := s.indexes[i];
      assert Admits(s.width, d, rows, row, {});
      AddEntry(s.width, d, rows, pk, row);
      assert rows - {} == rows;
      if d.unique {
        UniqueKept(s.width, d, rows, {}, pk, row);
      }
    }
  }

  lemma DeleteKeeps(s: Schema, rows: Rows, was: seq<set<seq<byte>>>, now: seq<set<seq<byte>>>, nextRowId: nat,
                    pk: seq<byte>)
    requires Consistent(s, rows, was, nextRowId) && pk in rows
    requires Removed(s, was, now, rows[pk], pk)
    ensures Consistent(s, rows - {pk}, now, nextRowId)
  {
    hide FitsIndex, Entry, Entries, PkFromRecord, ComparableKeyLength;
    forall i | 0 <= i < |now| ensures IndexAgrees(s.width, s.indexes[i], rows - {pk}, now[i]) {
      assert IndexAgrees(s.width, s.indexes[i], rows, was[i]);
      RemoveEntry(s.width, s.indexes[i], rows, pk);
    }
  }

  lemma UpdateKeepsIndex(width: nat, d: Index, rows: Rows, was: set<seq<byte>>, oldPk: seq<byte>, newPk: seq<byte>,
                         row: Row)
    requires IndexAgrees(width, d, rows, was) && Admits(width, d, rows, row, {oldPk})
    requires oldPk in rows && (newPk == oldPk || newPk !in rows)
    ensures FitsIndex(width, d, rows[oldPk])
    ensures IndexAgrees(width, d, Moved(rows, oldPk, newPk, row),
                        was - {Entry(width, d, rows[oldPk], oldPk)} + {Entry(width, d, row, newPk)})
  {
    hide FitsIndex, Entry, Entries, Unique, Taken, NoNulls, Project;
    MoveEntry(width, d, rows, oldPk, newPk, row);
    if d.unique {
      UniqueKept(width, d, rows, {oldPk}, newPk, row);
    }
  }

  lemma MovedIsKeyed(s: Schema, rows: Rows, nextRowId: nat, oldPk: seq<byte>, newPk: seq<byte>, row: Row)
    requires Keyed(s, rows, nextRowId) && oldPk in rows && RowFits(s, row) && newPk == PkFromRecord(s, row, oldPk)
    ensures Keyed(s, Moved(rows, oldPk, newPk, row), nextRowId)
  {
    hide FitsIndex, ComparableKeyLength, RowFits, FromBigEndian;
  }

  lemma UpdateKeeps(s: Schema, rows: Rows, was: seq<set<seq<byte>>>, now: seq<set<seq<byte>>>,
                    nextRowId: nat, oldPk: seq<byte>, newPk: seq<byte>, row: Row)
    requires Consistent(s, rows, was, nextRowId) && oldPk in rows && RowFits(s, row)
    requires newPk == PkFromRecord(s, row, oldPk) && (newPk != oldPk ==> newPk !in rows)
    requires AllAdmit(s, rows, row, {oldPk})
    requires RowFits(s, rows[oldPk]) && Replaced(s, was, now, rows[oldPk], oldPk, row, newPk)
    ensures Consistent(s, Moved(rows, oldPk, newPk, row), now, nextRowId)
  {
    hide FitsIndex, Entry, IndexAgrees, Admits, Keyed, PkFromRecord, Moved;
    MovedIsKeyed(s, rows, nextRowId, oldPk, newPk, row);
    forall i | 0 <= i < |now| ensures IndexAgrees(s.width, s.indexes[i], Moved(rows, oldPk, newPk, row), now[i]) {
      UpdateKeepsIndex(s.width, s.indexes[i], rows, was[i], oldPk, newPk, row);
    }
  }

  // ---- the handler ------------------------------------------------------------------------

  class RowTable {
    const schema: Schema
    var rows: Rows
    var families: seq<set<seq<byte>>>
    var nextRowId: nat
    /** current_pk_buf_: the key of the row the handler stands on. */
    var currentPk: seq<byte>

    ghost predicate Valid()
      reads this
    {
      Consistent(schema, rows, families, nextRowId)
    }

    constructor (s: Schema)
      requires WellFormed(s)
      ensures Valid() && schema == s && rows == map[] && nextRowId == 0
    {
      schema, rows, nextRowId, currentPk := s, map[], 0, [];
      families := seq(|s.indexes|, _ => {});
      new;
      assert forall i :: 0 <= i < |families| ==> IndexAgrees(schema.width, schema.indexes[i], rows, families[i]);
    }

    /** The duplicate probe: seek to the comparable key and look at the key found there. */
    method ProbeDuplicate(i: nat, row: Row) returns (dup: bool)
      requires Valid() && i < |schema.indexes| && RowFits(schema, row)
      ensures AllFit(schema.width, schema.indexes[i], rows)
      ensures dup <==> Taken(schema.width, schema.indexes[i], rows, row, {})
    {
      hide ColumnKey, Entry, FitsIndex, Project;
      var d := schema.indexes[i];
      assert IndexAgrees(schema.width, d, rows, families[i]);
      var prefix := ColumnKey(schema.width, d, row);
      var found, k := Store.Seek(families[i], prefix);
      dup := found && prefix <= k;
      forall p | p in rows
        ensures prefix <= Entry(schema.width, d, rows[p], p) <==>
                  Project(schema.width, d, rows[p]) == Project(schema.width, d, row)
        ensures Entry(schema.width, d, rows[p], p) in families[i]
      {
        EntryParts(schema.width, d, row, [], rows[p], p);
      }
      if dup {
        var p :| p in rows && k == Entry(schema.width, d, rows[p], p);
        assert Taken(schema.width, d, rows, row, {});
      } else if Taken(schema.width, d, rows, row, {}) {
        var p :| p in rows && p !in {} && Project(schema.width, d, rows[p]) == Project(schema.width, d, row);
        PrefixFound(families[i], prefix, found, k, Entry(schema.width, d, rows[p], p));
      }
    }

    /** write_check_secondary_unique */
    method WriteCheckSecondaryUnique(row: Row) returns (ok: bool)
      requires Valid() && RowFits(schema, row)
      ensures ok <==> AllAdmit(schema, rows, row, {})
      ensures forall pk :: pk !in rows ==> (ok <==> Obeys(schema, rows[pk := row]))
    {
      hide FitsIndex, Project, Taken, Entries, Unique, Keyed;
      for i := 0 to |schema.indexes|
        invariant forall j :: 0 <= j < i ==> Admits(schema.width, schema.indexes[j], rows, row, {})
      {
        var d := schema.indexes[i];
        assert IndexAgrees(schema.width, d, rows, families[i]);
        if d.unique && NoNulls(Project(schema.width, d, row)) {
          var dup := ProbeDuplicate(i, row);
          if dup {
            assert !Admits(schema.width, d, rows, row, {});
            NewRowObeys(schema, rows, families, nextRowId, row);
            return false;
          }
        }
        assert Admits(schema.width, d, rows, row, {});
      }
      NewRowObeys(schema, rows, families, nextRowId, row);
      return true;
    }

    /** write_maintain_indexes */
    method WriteMaintainIndexes(row: Row, pk: seq<byte>)
      requires |families| == |schema.indexes| && RowFits(schema, row) && pk == PkFromRecord(schema, row, pk)
      modifies this`families
      ensures Added(schema, old(families), families, row, pk)
    {
      hide FitsIndex, PkFromRecord, Entry;
      for i := 0 to |schema.indexes|
        invariant |families| == |schema.indexes|
        invariant forall j :: 0 <= j < i ==>
          families[j] == old(families)[j] + {Entry(schema.width, schema.indexes[j], row, pk)}
        invariant forall j :: i <= j < |families| ==> families[j] == old(families)[j]
      {
        families := families[i := families[i] + {Entry(schema.width, schema.indexes[i], row, pk)}];
      }
    }

    /** delete_maintain_indexes */
    method DeleteMaintainIndexes(row: Row)
      requires |families| == |schema.indexes| && RowFits(schema, row)
      modifies this`families
      ensures Removed(schema, old(families), families, row, PkFromRecord(schema, row, currentPk))
    {
      hide FitsIndex, PkFromRecord, Entry;
      var pk := PkFromRecord(schema, row, currentPk);
      for i := 0 to |schema.indexes|
        invariant |families| == |schema.indexes|
        invariant forall j :: 0 <= j < i ==>
          families[j] == old(families)[j] - {Entry(schema.width, schema.indexes[j], row, pk)}
        invariant forall j :: i <= j < |families| ==> families[j] == old(families)[j]
      {
        families := families[i := families[i] - {Entry(schema.width, schema.indexes[i], row, pk)}];
      }
    }

    /** write_row with the unique checks on. */
    method WriteRow(row: Row, replace: bool) returns (ok: bool)
      requires Valid() && RowFits(schema, row) && (schema.pk.Hidden? ==> nextRowId < ROW_ID_LIMIT)
      modifies this
      ensures Valid()
      ensures State(rows, nextRowId) == Step(schema, old(State(rows, nextRowId)), Insert(row, replace))
      ensures ok <==> InsertAllowed(schema, old(rows), row, NewPk(schema, row, old(nextRowId)), replace)
      ensures ok ==> currentPk in rows && rows[currentPk] == row
    {
      hide FitsIndex, RowFits, AllAdmit, Obeys, Consistent, NewPk, PkFromRecord, PkLength, Added;
      var pk := NewPk(schema, row, nextRowId);
      ghost var was, before := families, State(rows, nextRowId);
      NewPkIsNew(schema, rows, families, nextRowId, row);
      NewRowObeys(schema, rows, families, nextRowId, row);
      if schema.pk.Hidden? {
        nextRowId := nextRowId + 1;
      }
      if schema.pk.UserKey? && !(replace && |schema.indexes| == 0) && pk in rows {
        return false;
      }
      var admitted := WriteCheckSecondaryUnique(row);
      if !admitted {
        return false;
      }
      rows := rows[pk := row];
      currentPk := pk;
      WriteMaintainIndexes(row, pk);
      InsertKeeps(schema, before.rows, was, families, before.nextRowId, row, pk, nextRowId);
      return true;
    }

    /** delete_row of the row the handler stands on. */
    method DeleteRow()
      requires Valid() && currentPk in rows
      modifies this
      ensures Valid()
      ensures State(rows, nextRowId) == Step(schema, old(State(rows, nextRowId)), Delete(old(currentPk)))
    {
      hide FitsIndex, IndexAgrees, ComparableKeyLength;
      var row := rows[currentPk];
      ghost var was, before := families, rows;
      rows := rows - {currentPk};
      DeleteMaintainIndexes(row);
      DeleteKeeps(schema, before, was, families, nextRowId, currentPk);
    }

    /** update_check_unique */
    method UpdateCheckUnique(row: Row, newPk: seq<byte>) returns (ok: bool)
      requires Valid() && RowFits(schema, row) && currentPk in rows
      requires newPk == PkFromRecord(schema, row, currentPk)
      ensures ok <==> UpdateAllowed(schema, rows, row, currentPk, newPk)
    {
      hide FitsIndex, Project, Taken, Entries, Unique, PkFromRecord, ComparableKeyLength, ColumnKey, Obeys;
      if newPk != currentPk && schema.pk.UserKey? && newPk in rows {
        return false;
      }
      HiddenStays(schema, row, currentPk);
      MovedRowObeys(schema, rows, families, nextRowId, currentPk, newPk, row);
      for i := 0 to |schema.indexes|
        invariant forall j :: 0 <= j < i ==> Admits(schema.width, schema.indexes[j], rows, row, {currentPk})
      {
        var d := schema.indexes[i];
        assert IndexAgrees(schema.width, d, rows, families[i]);
        if d.unique && NoNulls(Project(schema.width, d, row)) {
          SameKeySameColumns(schema.width, d, rows[currentPk], row);
          if ColumnKey(schema.width, d, rows[currentPk]) == ColumnKey(schema.width, d, row) {
            UnchangedIsFree(schema.width, d, rows, currentPk, row);
          } else {
            var dup := ProbeDuplicate(i, row);
            OwnEntryIsElsewhere(schema.width, d, rows, currentPk, row);
            if dup {
              assert !Admits(schema.width, d, rows, row, {currentPk});
              return false;
            }
          }
        }
        assert Admits(schema.width, d, rows, row, {currentPk});
      }
      return true;
    }

    /** update_regular_index: nothing to write when no indexed column is written or the entry stays the same. */
    method UpdateRegularIndex(i: nat, oldRow: Row, row: Row, oldPk: seq<byte>, newPk: seq<byte>, written: set<nat>)
      requires |families| == |schema.indexes| && i < |schema.indexes|
      requires RowFits(schema, oldRow) && RowFits(schema, row) && KeepsUnwritten(oldRow, row, written)
      requires newPk == PkFromRecord(schema, row, oldPk)
      requires Entry(schema.width, schema.indexes[i], oldRow, oldPk) in families[i]
      modifies this`families, this`currentPk
      ensures families == old(families)[i := old(families)[i]
                - {Entry(schema.width, schema.indexes[i], oldRow, oldPk)}
                + {Entry(schema.width, schema.indexes[i], row, newPk)}]
      ensures currentPk == old(currentPk) || currentPk == newPk
    {
      hide FitsIndex, ColumnKey;
      var d := schema.indexes[i];
      var fam := families[i];
      if newPk == oldPk && forall p :: 0 <= p < |d.columns| ==> d.columns[p] !in written {
        UnwrittenColumns(schema.width, d, oldRow, row, written);
        assert fam == fam - {Entry(schema.width, d, oldRow, oldPk)} + {Entry(schema.width, d, row, newPk)};
        return;
      }
      var oldKey := ColumnKey(schema.width, d, oldRow) + oldPk;
      currentPk := newPk;
      PkOfMoved(schema, row, oldPk, newPk);
      var newKey := ColumnKey(schema.width, d, row) + PkFromRecord(schema, row, currentPk);
      if oldKey == newKey {
        assert fam == fam - {oldKey} + {newKey};
        return;
      }
      families := families[i := fam - {oldKey}];
      families := families[i := families[i] + {newKey}];
    }

    /** update_row of the row the handler stands on, with the unique checks on. */
    method UpdateRow(row: Row, written: set<nat>) returns (ok: bool)
      requires Valid() && currentPk in rows && RowFits(schema, row) && KeepsUnwritten(rows[currentPk], row, written)
      modifies this
      ensures Valid()
      ensures State(rows, nextRowId) == Step(schema, old(State(rows, nextRowId)), Update(old(currentPk), row, written))
      ensures ok <==> UpdateAllowed(schema, old(rows), row, old(currentPk), PkFromRecord(schema, row, old(currentPk)))
      ensures ok ==> currentPk in rows && rows[currentPk] == row
    {
      hide FitsIndex, RowFits, AllAdmit, Consistent, PkFromRecord;
      var oldPk := currentPk;
      var oldRow := rows[oldPk];
      var newPk := PkFromRecord(schema, row, oldPk);
      ok := UpdateCheckUnique(row, newPk);
      if !ok {
        return;
      }
      MovedRowObeys(schema, rows, families, nextRowId, oldPk, newPk, row);
      ghost var was, before := families, rows;
      if newPk != oldPk {
        rows := rows - {oldPk};
      }
      rows := rows[newPk := row];
      assert rows == Moved(before, oldPk, newPk, row);
      UpdateMaintainIndexes(before, oldRow, row, oldPk, newPk, written);
      UpdateKeeps(schema, before, was, families, nextRowId, oldPk, newPk, row);
      currentPk := newPk;
    }

    /** update_maintain_indexes */
    method UpdateMaintainIndexes(ghost before: Rows, oldRow: Row, row: Row, oldPk: seq<byte>, newPk: seq<byte>,
                                 written: set<nat>)
      requires Consistent(schema, before, families, nextRowId) && oldPk in before && oldRow == before[oldPk]
      requires RowFits(schema, row) && KeepsUnwritten(oldRow, row, written)
      requires newPk == PkFromRecord(schema, row, oldPk)
      modifies this`families, this`currentPk
      ensures RowFits(schema, oldRow) && Replaced(schema, old(families), families, oldRow, oldPk, row, newPk)
    {
      hide FitsIndex, PkFromRecord, ComparableKeyLength, Entry, KeepsUnwritten;
      forall i | 0 <= i < |families| ensures Entry(schema.width, schema.indexes[i], oldRow, oldPk) in families[i] {
        assert IndexAgrees(schema.width, schema.indexes[i], before, families[i]);
      }
      for i := 0 to |schema.indexes|
        invariant |families| == |schema.indexes|
        invariant forall j :: 0 <= j < i ==>
          families[j] == old(families)[j] - {Entry(schema.width, schema.indexes[j], oldRow, oldPk)}
            + {Entry(schema.width, schema.indexes[j], row, newPk)}
        invariant forall j :: i <= j < |families| ==> families[j] == old(families)[j]
      {
        UpdateRegularIndex(i, oldRow, row, oldPk, newPk, written);
      }
    }

    /**
     Any run of statements. The rows are what the constrained table of rows alone would hold, and the
     index families agree with them at the end of every statement.
     */
    method Run(ops: seq<Op>)
      requires Valid()
      modifies this
      ensures Valid()
      ensures State(rows, nextRowId) == Steps(schema, old(State(rows, nextRowId)), ops)
    {
      hide Consistent, Issuable, Step;
      for n := 0 to |ops|
        invariant Valid()
        invariant State(rows, nextRowId) == Steps(schema, old(State(rows, nextRowId)), ops[..n])
      {
        assert ops[..n + 1][..n] == ops[..n];
        RunOne(ops[n]);
      }
      assert ops[..|ops|] == ops;
    }

    method RunOne(op: Op)
      requires Valid()
      modifies this
      ensures Valid()
      ensures State(rows, nextRowId) == Step(schema, old(State(rows, nextRowId)), op)
    {
      hide Consistent, RowFits, KeepsUnwritten, InsertAllowed, UpdateAllowed;
      if !Issuable(schema, State(rows, nextRowId), op) {
        return;
      }
      match op {
        case Insert(row, replace) =>
          var _ := WriteRow(row, replace);
        case Update(pk, row, written) =>
          currentPk := pk;
          var _ := UpdateRow(row, written);
        case Delete(pk) =>
          currentPk := pk;
          DeleteRow();
      }
    }
  }

  lemma MovedRowObeys(s: Schema, rows: Rows, families: seq<set<seq<byte>>>, nextRowId: nat, oldPk: seq<byte>,
                      newPk: seq<byte>, row: Row)
    requires Consistent(s, rows, families, nextRowId) && RowFits(s, row) && (newPk == oldPk || newPk !in rows)
    ensures AllAdmit(s, rows, row, {oldPk}) <==> Obeys(s, Moved(rows, oldPk, newPk, row))
  {
    hide Consistent, RowFits, AllAdmit, Obeys;
    AllAdmitIff(s, rows, families, nextRowId, {oldPk}, newPk, row);
  }

  lemma NewRowObeys(s: Schema, rows: Rows, families: seq<set<seq<byte>>>, nextRowId: nat, row: Row)
    requires Consistent(s, rows, families, nextRowId) && RowFits(s, row)
    ensures forall pk :: pk !in rows || s.indexes == [] ==>
      (AllAdmit(s, rows, row, {}) <==> Obeys(s, rows[pk := row]))
  {
    hide Consistent, RowFits, AllAdmit, Obeys;
    assert rows - {} == rows;
    forall pk | pk !in rows || s.indexes == [] ensures AllAdmit(s, rows, row, {}) <==> Obeys(s, rows[pk := row]) {
      AllAdmitIff(s, rows, families, nextRowId, {}, pk, row);
    }
  }

  lemma HiddenStays(s: Schema, row: Row, current: seq<byte>)
    requires RowFits(s, row)
    ensures s.pk.Hidden? ==> PkFromRecord(s, row, current) == current
  {}

  lemma PkOfMoved(s: Schema, row: Row, oldPk: seq<byte>, newPk: seq<byte>)
    requires RowFits(s, row) && newPk == PkFromRecord(s, row, oldPk)
    ensures PkFromRecord(s, row, newPk) == newPk
  {}

  lemma SameKeySameColumns(width: nat, d: Index, a: Row, b: Row)
    requires FitsIndex(width, d, a) && FitsIndex(width, d, b)
    ensures ColumnKey(width, d, a) == ColumnKey(width, d, b) <==> Project(width, d, a) == Project(width, d, b)
  {
    EncodeOrder(d.parts, Project(width, d, a), Project(width, d, b));
  }

  lemma UnwrittenColumns(width: nat, d: Index, a: Row, b: Row, written: set<nat>)
    requires FitsIndex(width, d, a) && FitsIndex(width, d, b) && KeepsUnwritten(a, b, written)
    requires forall p :: 0 <= p < |d.columns| ==> d.columns[p] !in written
    ensures ColumnKey(width, d, a) == ColumnKey(width, d, b)
  {
    assert Project(width, d, a) == Project(width, d, b);
  }

  lemma UnchangedIsFree(width: nat, d: Index, rows: Rows, pk: seq<byte>, row: Row)
    requires AllFit(width, d, rows) && Unique(width, d, rows) && pk in rows && FitsIndex(width, d, row)
    requires Project(width, d, rows[pk]) == Project(width, d, row) && NoNulls(Project(width, d, row))
    ensures !Taken(width, d, rows, row, {pk})
  {}

  lemma OwnEntryIsElsewhere(width: nat, d: Index, rows: Rows, pk: seq<byte>, row: Row)
    requires AllFit(width, d, rows) && pk in rows && FitsIndex(width, d, row)
    requires Project(width, d, rows[pk]) != Project(width, d, row)
    ensures Taken(width, d, rows, row, {}) <==> Taken(width, d, rows, row, {pk})
  {
    if Taken(width, d, rows, row, {}) {
      var p :| p in rows && p !in {} && Project(width, d, rows[p]) == Project(width, d, row);
      assert p !in {pk};
    }
    if Taken(width, d, rows, row, {pk}) {
      var p :| p in rows && p !in {pk} && Project(width, d, rows[p]) == Project(width, d, row);
      assert p !in {};
    }
  }

  lemma PrefixFound(keys: set<seq<byte>>, p: seq<byte>, found: bool, k: seq<byte>, j: seq<byte>)
    requires found ==> Store.IsFirstFrom(keys, p, k)
    requires !found ==> forall x :: x in keys ==> Less(x, p)
    requires j in keys && p <= j
    ensures found && p <= k
  {
    if found {
      Store.SeekFindsPrefix(keys, p, k, j);
    } else {
      PrefixSortsFirst(p, j[|p|..]);
      assert j == p + j[|p|..];
      LessTrichotomy(p, j);
      LessIrreflexive(p);
    }
  }
}
