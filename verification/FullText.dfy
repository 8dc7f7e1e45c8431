/**
 Full-text maintenance over whole transactions: postings of every full-text index of a table, the
 per-transaction list of pending totals, and the stored document and word totals.

 Over every run of row operations, mid-statement commits, commits and rollbacks, the postings are
 exactly those of the rows, and at every commit the stored totals are the number of rows and the sum of
 their lengths.
 */
module FullText {
  import opened Bytes
  import opened Optional
  import opened FullTextPostings

  const INT64_LIMIT: nat := 0x8000_0000_0000_0000
  const UINT64_LIMIT: nat := 0x1_0000_0000_0000_0000
  const META_VALUE_LEN: nat := 16

  type Docs = map<Key, Doc>
  /** Every row has one document per full-text index. */
  type Rows = map<Key, seq<Doc>>

  // ---- postings of a table ----------------------------------------------------------------

  ghost function AllKeys(docs: Docs): set<Key> {
    set pk, t | pk in docs && t in docs[pk] :: EntryKey(t, pk)
  }

  /** The family holds the entries of the documents and nothing else. */
  ghost predicate Exact(docs: Docs, f: Family) {
    f.Keys == AllKeys(docs) && forall pk :: pk in docs ==> Holds(f, docs[pk], pk)
  }

  lemma EntryOfOther(docs: Docs, pk: Key, q: Key, t: Term, terms: set<Term>)
    requires q != pk
    ensures EntryKey(t, q) !in KeysFor(terms, pk)
  {
    hide EntryKey;
    forall u | u in terms ensures EntryKey(u, pk) != EntryKey(t, q) {
      EntryKeysClash(u, pk, t, q);
    }
  }

  lemma ExactRemove(docs: Docs, f: Family, pk: Key)
    requires Exact(docs, f) && pk in docs
    ensures Exact(docs - {pk}, Without(f, Terms(docs[pk]), pk))
  {
    hide EntryKey, ValueIn;
    var g, rest := Without(f, Terms(docs[pk]), pk), docs - {pk};
    forall q, t | q in rest && t in rest[q] ensures EntryKey(t, q) in g {
      EntryOfOther(docs, pk, q, t, Terms(docs[pk]));
      assert EntryKey(t, q) in AllKeys(docs);
    }
    assert forall t :: t in docs[pk] ==> EntryKey(t, pk) in KeysFor(Terms(docs[pk]), pk);
    forall k | k in g ensures k in AllKeys(rest) {
      var q, t :| q in docs && t in docs[q] && k == EntryKey(t, q);
      assert q in rest;
    }
  }

  lemma ExactAdd(docs: Docs, f: Family, pk: Key, doc: Doc)
    requires Exact(docs, f) && pk !in docs && NoClash(Terms(doc))
    ensures Exact(docs[pk := doc], With(f, doc, Terms(doc), pk))
  {
    hide EntryKey, ValueIn, With, NoClash;
    var g, more := With(f, doc, Terms(doc), pk), docs[pk := doc];
    WithAt(f, doc, Terms(doc), pk);
    forall q | q in more ensures Holds(g, more[q], q) {
      if q == pk {
        forall t | t in doc ensures EntryKey(t, pk) in g && g[EntryKey(t, pk)] == ValueIn(doc, t) {
          assert t in Terms(doc);
        }
      } else {
        assert Holds(f, docs[q], q);
        forall t | t in docs[q] ensures EntryKey(t, q) in g && g[EntryKey(t, q)] == ValueIn(docs[q], t) {
          EntryOfOther(docs, pk, q, t, Terms(doc));
        }
      }
    }
    AddedKeys(docs, f, pk, doc);
  }

  lemma AddedKeys(docs: Docs, f: Family, pk: Key, doc: Doc)
    requires pk !in docs && f.Keys == AllKeys(docs)
    ensures AllKeys(docs[pk := doc]) == f.Keys + KeysFor(Terms(doc), pk)
  {
    hide EntryKey;
    var more := docs[pk := doc];
    forall k | k in AllKeys(more) ensures k in f.Keys + KeysFor(Terms(doc), pk) {
      var q, t :| q in more && t in more[q] && k == EntryKey(t, q);
      if q == pk { assert t in Terms(doc); } else { assert q in docs && t in docs[q]; }
    }
    forall k | k in f.Keys + KeysFor(Terms(doc), pk) ensures k in AllKeys(more) {
      if k in f.Keys {
        var q, t :| q in docs && t in docs[q] && k == EntryKey(t, q);
        assert q in more && t in more[q];
      } else {
        var t :| t in Terms(doc) && k == EntryKey(t, pk);
        assert pk in more && t in more[pk];
      }
    }
  }

  function Moved(docs: Docs, oldPk: Key, newPk: Key, doc: Doc): Docs {
    (docs - {oldPk})[newPk := doc]
  }

  lemma ExactMove(docs: Docs, f: Family, oldPk: Key, newPk: Key, doc: Doc)
    requires Exact(docs, f) && oldPk in docs && (newPk == oldPk || newPk !in docs) && NoClash(Terms(doc))
    ensures Exact(Moved(docs, oldPk, newPk, doc), Reinserted(f, docs[oldPk], doc, oldPk, newPk))
  {
    hide Exact, With, Without, NoClash;
    ExactRemove(docs, f, oldPk);
    ExactAdd(docs - {oldPk}, Without(f, Terms(docs[oldPk]), oldPk), newPk, doc);
  }

  /**
   An update that moves the primary key without writing a column of the index leaves the family alone.
   The postings are still those of the rows exactly when the document has no terms.
   */
  lemma UnwrittenMove(docs: Docs, f: Family, oldPk: Key, newPk: Key)
    requires Exact(docs, f) && oldPk in docs && newPk !in docs
    ensures Exact(Moved(docs, oldPk, newPk, docs[oldPk]), f) <==> docs[oldPk] == []
  {
    hide EntryKey, ValueIn;
    var doc := docs[oldPk];
    var moved := Moved(docs, oldPk, newPk, doc);
    if doc == [] {
      forall k ensures k in AllKeys(moved) <==> k in AllKeys(docs) {
        if k in AllKeys(moved) {
          var q, t :| q in moved && t in moved[q] && k == EntryKey(t, q);
          assert q in docs && docs[q] == moved[q];
        }
        if k in AllKeys(docs) {
          var q, t :| q in docs && t in docs[q] && k == EntryKey(t, q);
          assert q in moved && docs[q] == moved[q];
        }
      }
    } else {
      var t := doc[0];
      assert EntryKey(t, oldPk) in f.Keys by { assert t in docs[oldPk]; }
      forall q, u | q in moved && u in moved[q] ensures EntryKey(u, q) != EntryKey(t, oldPk) {
        EntryKeysClash(u, q, t, oldPk);
      }
    }
  }

  // ---- totals -----------------------------------------------------------------------------

  /** The words of all documents. */
  ghost function WordSum(docs: Docs): nat
    decreases |docs|
  {
    if docs == map[] then 0
    else
      var pk :| pk in docs;
      Smaller(docs, pk);
      WordCount(docs[pk]) + WordSum(docs - {pk})
  }

  lemma Smaller(docs: Docs, pk: Key)
    requires pk in docs
    ensures |docs - {pk}| == |docs| - 1
  {
    assert (docs - {pk}).Keys == docs.Keys - {pk};
  }

  lemma {:induction false} WordSumRemove(docs: Docs, pk: Key)
    requires pk in docs
    ensures WordSum(docs) == WordCount(docs[pk]) + WordSum(docs - {pk})
    ensures |docs - {pk}| == |docs| - 1
    decreases |docs|
  {
    hide WordCount;
    Smaller(docs, pk);
    var q :| q in docs && WordSum(docs) == WordCount(docs[q]) + WordSum(docs - {q});
    if q != pk {
      Smaller(docs, q);
      WordSumRemove(docs - {q}, pk);
      WordSumRemove(docs - {pk}, q);
      assert docs - {q} - {pk} == docs - {pk} - {q};
    }
  }

  lemma WordSumMoved(docs: Docs, oldPk: Key, newPk: Key, doc: Doc)
    requires oldPk in docs && (newPk == oldPk || newPk !in docs)
    ensures WordSum(Moved(docs, oldPk, newPk, doc)) == WordSum(docs) - WordCount(docs[oldPk]) + WordCount(doc)
    ensures |Moved(docs, oldPk, newPk, doc)| == |docs|
  {
    hide WordCount, WordSum;
    var moved := Moved(docs, oldPk, newPk, doc);
    WordSumRemove(docs, oldPk);
    WordSumRemove(moved, newPk);
    assert moved - {newPk} == docs - {oldPk};
  }

  lemma WordSumAdded(docs: Docs, pk: Key, doc: Doc)
    requires pk !in docs
    ensures WordSum(docs[pk := doc]) == WordSum(docs) + WordCount(doc)
    ensures |docs[pk := doc]| == |docs| + 1
  {
    hide WordCount, WordSum;
    WordSumRemove(docs[pk := doc], pk);
    assert docs[pk := doc] - {pk} == docs;
  }

  // ---- the stored totals ------------------------------------------------------------------

  predicate Int64(v: int) {
    -0x8000_0000_0000_0000 <= v < 0x8000_0000_0000_0000
  }

  function Unsigned(v: int): nat
    requires Int64(v)
  {
    if v < 0 then v + UINT64_LIMIT else v
  }

  function Signed(v: nat): int {
    if v < INT64_LIMIT then v else v - UINT64_LIMIT
  }

  function EncodeMeta(docs: int, words: int): seq<byte>
    requires Int64(docs) && Int64(words)
  {
    LittleEndian(Unsigned(docs), 8) + LittleEndian(Unsigned(words), 8)
  }

  datatype Totals = Totals(docs: int, words: int)

  function DecodeMeta(v: seq<byte>): Option<Totals> {
    if |v| < META_VALUE_LEN then None
    else Some(Totals(Signed(FromLittleEndian(v[..8])), Signed(FromLittleEndian(v[8..16]))))
  }

  lemma MetaRoundTrip(docs: int, words: int)
    requires Int64(docs) && Int64(words)
    ensures DecodeMeta(EncodeMeta(docs, words)) == Some(Totals(docs, words))
  {
    hide LittleEndian, FromLittleEndian;
    ConcreteWidths();
    LittleEndianRoundTrip(Unsigned(docs), 8);
    LittleEndianRoundTrip(Unsigned(words), 8);
    var v := EncodeMeta(docs, words);
    assert v[..8] == LittleEndian(Unsigned(docs), 8) && v[8..16] == LittleEndian(Unsigned(words), 8);
  }

  type Meta = map<nat, seq<byte>>

  /** fts_load_meta: a missing value is a fresh index. */
  function Loaded(meta: Meta, keynr: nat): Totals {
    if keynr in meta && DecodeMeta(meta[keynr]).Some? then DecodeMeta(meta[keynr]).value else Totals(0, 0)
  }

  datatype Delta = Delta(keynr: nat, docs: int, words: int)

  /** The pending change of one index. */
  function Pending(pending: seq<Delta>, keynr: nat): Totals {
    if pending == [] then Totals(0, 0)
    else if pending[0].keynr == keynr then Totals(pending[0].docs, pending[0].words)
    else Pending(pending[1..], keynr)
  }

  predicate OncePerKey(pending: seq<Delta>) {
    forall i, j :: 0 <= i < j < |pending| ==> pending[i].keynr != pending[j].keynr
  }

  lemma {:induction false} PendingAt(pending: seq<Delta>, i: nat, d: Delta)
    requires OncePerKey(pending) && i < |pending| && d.keynr == pending[i].keynr
    ensures Pending(pending, d.keynr) == Totals(pending[i].docs, pending[i].words)
    ensures Pending(pending[i := d], d.keynr) == Totals(d.docs, d.words)
    ensures forall k :: k != d.keynr ==> Pending(pending[i := d], k) == Pending(pending, k)
  {
    if i == 0 {
      assert pending[i := d][1..] == pending[1..];
    } else {
      assert pending[1..][i - 1] == pending[i];
      assert pending[0].keynr != pending[i].keynr;
      PendingAt(pending[1..], i - 1, d);
      assert pending[i := d][1..] == pending[1..][i - 1 := d];
    }
  }

  lemma {:induction false} PendingAbsent(pending: seq<Delta>, keynr: nat)
    requires forall i :: 0 <= i < |pending| ==> pending[i].keynr != keynr
    ensures Pending(pending, keynr) == Totals(0, 0)
  {
    if pending != [] {
      PendingAbsent(pending[1..], keynr);
    }
  }

  lemma {:induction false} PendingSnoc(pending: seq<Delta>, d: Delta)
    requires forall i :: 0 <= i < |pending| ==> pending[i].keynr != d.keynr
    ensures Pending(pending + [d], d.keynr) == Totals(d.docs, d.words)
    ensures forall k :: k != d.keynr ==> Pending(pending + [d], k) == Pending(pending, k)
  {
    if pending == [] {
      assert pending + [d] == [d];
    } else {
      PendingSnoc(pending[1..], d);
      assert (pending + [d])[1..] == pending[1..] + [d];
    }
  }

  // ---- one index in step with the rows ----------------------------------------------------

  predicate Wide(rows: Rows, n: nat) {
    forall pk :: pk in rows ==> |rows[pk]| == n
  }

  /** The documents of one index. */
  function DocsOf(rows: Rows, n: nat, i: nat): Docs
    requires Wide(rows, n) && i < n
  {
    map pk | pk in rows :: rows[pk][i]
  }

  /** Postings exact, and stored totals plus pending change are the true totals, which fit 64 bits. */
  ghost predicate InStep(docs: Docs, f: Family, meta: Meta, pending: seq<Delta>, keynr: nat) {
    && Exact(docs, f)
    && Loaded(meta, keynr).docs + Pending(pending, keynr).docs == |docs| < INT64_LIMIT
    && Loaded(meta, keynr).words + Pending(pending, keynr).words == WordSum(docs) < INT64_LIMIT
  }

  ghost predicate AllInStep(n: nat, rows: Rows, families: seq<Family>, meta: Meta, pending: seq<Delta>) {
    && Wide(rows, n) && |families| == n
    && forall i :: 0 <= i < n ==> InStep(DocsOf(rows, n, i), families[i], meta, pending, i)
  }

  ghost predicate PendingOk(n: nat, pending: seq<Delta>) {
    OncePerKey(pending) && forall i :: 0 <= i < |pending| ==> pending[i].keynr < n
  }

  predicate DocsFit(docs: seq<Doc>, n: nat) {
    |docs| == n && forall i :: 0 <= i < n ==> NoClash(Terms(docs[i]))
  }

  /** The totals of the rows stay within 64 bits. */
  ghost predicate Bounded(rows: Rows, n: nat) {
    Wide(rows, n) && |rows| < INT64_LIMIT && forall i :: 0 <= i < n ==> WordSum(DocsOf(rows, n, i)) < INT64_LIMIT
  }

  lemma DocsCount(rows: Rows, n: nat, i: nat)
    requires Wide(rows, n) && i < n
    ensures |DocsOf(rows, n, i)| == |rows|
  {
    assert DocsOf(rows, n, i).Keys == rows.Keys;
  }

  datatype Snapshot = Snapshot(rows: Rows, families: seq<Family>, meta: Meta)

  /** The pending change of an index moved by the given amounts. */
  ghost predicate PendingMoved(was: seq<Delta>, now: seq<Delta>, keynr: nat, docs: int, words: int) {
    && Pending(now, keynr).docs == Pending(was, keynr).docs + docs
    && Pending(now, keynr).words == Pending(was, keynr).words + words
  }

  lemma InStepAdd(docs: Docs, f: Family, meta: Meta, was: seq<Delta>, now: seq<Delta>, keynr: nat, pk: Key, doc: Doc)
    requires InStep(docs, f, meta, was, keynr) && pk !in docs && NoClash(Terms(doc))
    requires PendingMoved(was, now, keynr, 1, WordCount(doc))
    requires |docs[pk := doc]| < INT64_LIMIT && WordSum(docs[pk := doc]) < INT64_LIMIT
    ensures InStep(docs[pk := doc], With(f, doc, Terms(doc), pk), meta, now, keynr)
  {
    hide Exact, WordSum, WordCount, With, NoClash, Pending, Loaded;
    ExactAdd(docs, f, pk, doc);
    WordSumAdded(docs, pk, doc);
  }

  lemma InStepRemove(docs: Docs, f: Family, meta: Meta, was: seq<Delta>, now: seq<Delta>, keynr: nat, pk: Key)
    requires InStep(docs, f, meta, was, keynr) && pk in docs
    requires PendingMoved(was, now, keynr, -1, 0 - WordCount(docs[pk]))
    ensures InStep(docs - {pk}, Without(f, Terms(docs[pk]), pk), meta, now, keynr)
  {
    hide Exact, WordSum, WordCount, Without, Pending, Loaded;
    ExactRemove(docs, f, pk);
    WordSumRemove(docs, pk);
  }

  lemma InStepMove(docs: Docs, f: Family, meta: Meta, was: seq<Delta>, now: seq<Delta>, keynr: nat,
                   oldPk: Key, newPk: Key, doc: Doc)
    requires InStep(docs, f, meta, was, keynr) && oldPk in docs && (newPk == oldPk || newPk !in docs)
    requires NoClash(Terms(doc))
    requires PendingMoved(was, now, keynr, 0, WordCount(doc) - WordCount(docs[oldPk]))
    requires WordSum(Moved(docs, oldPk, newPk, doc)) < INT64_LIMIT
    ensures InStep(Moved(docs, oldPk, newPk, doc), Reinserted(f, docs[oldPk], doc, oldPk, newPk), meta, now, keynr)
  {
    hide Exact, WordSum, WordCount, Reinserted, NoClash, Pending, Loaded;
    ExactMove(docs, f, oldPk, newPk, doc);
    WordSumMoved(docs, oldPk, newPk, doc);
  }

  lemma InStepUntouched(docs: Docs, f: Family, meta: Meta, pending: seq<Delta>, keynr: nat, oldPk: Key, newPk: Key)
    requires InStep(docs, f, meta, pending, keynr) && oldPk in docs && (newPk == oldPk || newPk !in docs)
    requires newPk == oldPk || docs[oldPk] == []
    ensures InStep(Moved(docs, oldPk, newPk, docs[oldPk]), f, meta, pending, keynr)
  {
    hide Exact, WordSum, WordCount, Pending, Loaded;
    WordSumMoved(docs, oldPk, newPk, docs[oldPk]);
    if newPk == oldPk {
      assert Moved(docs, oldPk, newPk, docs[oldPk]) == docs;
    } else {
      UnwrittenMove(docs, f, oldPk, newPk);
    }
  }

  function MovedRow(rows: Rows, oldPk: Key, newPk: Key, docs: seq<Doc>): Rows {
    (rows - {oldPk})[newPk := docs]
  }

  lemma DocsOfAdded(rows: Rows, n: nat, i: nat, pk: Key, docs: seq<Doc>)
    requires Wide(rows, n) && |docs| == n && i < n
    ensures Wide(rows[pk := docs], n) && DocsOf(rows[pk := docs], n, i) == DocsOf(rows, n, i)[pk := docs[i]]
  {}

  lemma DocsOfRemoved(rows: Rows, n: nat, i: nat, pk: Key)
    requires Wide(rows, n) && i < n
    ensures Wide(rows - {pk}, n) && DocsOf(rows - {pk}, n, i) == DocsOf(rows, n, i) - {pk}
  {}

  lemma DocsOfMoved(rows: Rows, n: nat, i: nat, oldPk: Key, newPk: Key, docs: seq<Doc>)
    requires Wide(rows, n) && |docs| == n && i < n
    ensures Wide(MovedRow(rows, oldPk, newPk, docs), n)
    ensures DocsOf(MovedRow(rows, oldPk, newPk, docs), n, i) == Moved(DocsOf(rows, n, i), oldPk, newPk, docs[i])
  {
    DocsOfRemoved(rows, n, i, oldPk);
    DocsOfAdded(rows - {oldPk}, n, i, newPk, docs);
  }

  /** What an update has to say about the columns of each index for the postings to follow. */
  predicate Tracked(oldDocs: seq<Doc>, newDocs: seq<Doc>, written: seq<bool>, oldPk: Key, newPk: Key) {
    && |oldDocs| == |newDocs| == |written|
    && (forall i :: 0 <= i < |written| && !written[i] ==> newDocs[i] == oldDocs[i])
    && (forall i :: 0 <= i < |written| && !written[i] ==> newPk == oldPk || oldDocs[i] == [])
  }

  class FullTextTable {
    const n: nat
    /** What the open transaction sees. */
    var rows: Rows
    var families: seq<Family>
    var meta: Meta
    /** fts_meta_pending and its dirty flag. */
    var pending: seq<Delta>
    var dirty: bool
    /** What the last commit left in the store. */
    var durable: Snapshot

    ghost predicate Valid()
      reads this
    {
      && AllInStep(n, rows, families, meta, pending) && PendingOk(n, pending) && (pending != [] ==> dirty)
      && AllInStep(n, durable.rows, durable.families, durable.meta, [])
    }

    constructor (n: nat)
      ensures Valid() && this.n == n && rows == map[] && durable.rows == map[]
    {
      this.n := n;
      rows, families, meta, pending, dirty := map[], seq(n, _ => map[]), map[], [], false;
      durable := Snapshot(map[], seq(n, _ => map[]), map[]);
      new;
      forall i | 0 <= i < n ensures InStep(DocsOf(map[], n, i), map[], map[], [], i) {
        assert DocsOf(map[], n, i) == map[];
      }
    }

    /** trx_fts_meta_accumulate */
    method Accumulate(keynr: nat, docs: int, words: int)
      requires PendingOk(n, pending) && keynr < n && (pending != [] ==> dirty)
      modifies this`pending, this`dirty
      ensures PendingOk(n, pending) && dirty
      ensures Pending(pending, keynr).docs == Pending(old(pending), keynr).docs + docs
      ensures Pending(pending, keynr).words == Pending(old(pending), keynr).words + words
      ensures forall k :: k != keynr ==> Pending(pending, k) == Pending(old(pending), k)
    {
      hide Pending;
      for e := 0 to |pending|
        invariant pending == old(pending)
        invariant forall i :: 0 <= i < e ==> pending[i].keynr != keynr
      {
        if pending[e].keynr == keynr {
          var d := Delta(keynr, pending[e].docs + docs, pending[e].words + words);
          PendingAt(pending, e, d);
          pending := pending[e := d];
          dirty := true;
          return;
        }
      }
      var d := Delta(keynr, docs, words);
      PendingAbsent(pending, keynr);
      PendingSnoc(pending, d);
      pending := pending + [d];
      dirty := true;
    }

    /** fts_update_meta. The clamp at zero is there for totals that would turn negative. */
    method UpdateMeta(keynr: nat, docs: int, words: int) returns (clamped: bool)
      requires Int64(Loaded(meta, keynr).docs + docs) && Int64(Loaded(meta, keynr).words + words)
      modifies this`meta
      ensures clamped <==> Loaded(old(meta), keynr).docs + docs < 0 || Loaded(old(meta), keynr).words + words < 0
      ensures !clamped ==>
        Loaded(meta, keynr) == Totals(Loaded(old(meta), keynr).docs + docs, Loaded(old(meta), keynr).words + words)
      ensures forall k :: k != keynr ==> Loaded(meta, k) == Loaded(old(meta), k)
    {
      hide EncodeMeta, DecodeMeta;
      var was := Loaded(meta, keynr);
      var d, w := was.docs + docs, was.words + words;
      clamped := false;
      if d < 0 { d, clamped := 0, true; }
      if w < 0 { w, clamped := 0, true; }
      MetaRoundTrip(d, w);
      meta := meta[keynr := EncodeMeta(d, w)];
    }

    /** flush_trx_fts_meta_pending: afterwards nothing is pending, and no total was clamped. */
    method FlushPending() returns (ghost clamped: bool)
      requires AllInStep(n, rows, families, meta, pending) && PendingOk(n, pending) && (pending != [] ==> dirty)
      modifies this`meta, this`pending, this`dirty
      ensures !clamped
      ensures AllInStep(n, rows, families, meta, []) && pending == [] && !dirty
    {
      hide Exact, WordSum, Loaded, DocsOf;
      clamped := false;
      if !dirty || |pending| == 0 {
        pending, dirty := [], false;
        return;
      }
      for e := 0 to |pending|
        invariant pending == old(pending) && !clamped
        invariant AllInStep(n, rows, families, meta, pending[e..])
      {
        var d := pending[e];
        assert pending[e..][0] == d && pending[e..][1..] == pending[e + 1..];
        PendingAbsent(pending[e + 1..], d.keynr);
        assert InStep(DocsOf(rows, n, d.keynr), families[d.keynr], meta, pending[e..], d.keynr);
        ghost var before := meta;
        var c := UpdateMeta(d.keynr, d.docs, d.words);
        clamped := clamped || c;
        forall i | 0 <= i < n ensures InStep(DocsOf(rows, n, i), families[i], meta, pending[e + 1..], i) {
          assert InStep(DocsOf(rows, n, i), families[i], before, pending[e..], i);
        }
      }
      assert pending[|pending|..] == [];
      pending, dirty := [], false;
    }

    /** The full-text branch of write_maintain_indexes. */
    method InsertDoc(i: nat, pk: Key, doc: Doc)
      requires |families| == n && i < n && NoClash(Terms(doc))
      requires PendingOk(n, pending) && (pending != [] ==> dirty)
      modifies this`families, this`pending, this`dirty
      ensures families == old(families)[i := With(old(families)[i], doc, Terms(doc), pk)]
      ensures PendingOk(n, pending) && dirty && PendingMoved(old(pending), pending, i, 1, WordCount(doc))
      ensures forall k :: k != i ==> Pending(pending, k) == Pending(old(pending), k)
    {
      hide With, Count, NoClash, WordCount;
      var tf := CountTerms(doc);
      var g := PutEntries(families[i], doc, tf, tf.Keys, pk);
      families := families[i := g];
      Accumulate(i, 1, WordCount(doc));
    }

    /** The full-text branch of delete_maintain_indexes. */
    method DeleteDoc(i: nat, pk: Key, doc: Doc)
      requires |families| == n && i < n && PendingOk(n, pending) && (pending != [] ==> dirty)
      modifies this`families, this`pending, this`dirty
      ensures families == old(families)[i := Without(old(families)[i], Terms(doc), pk)]
      ensures PendingOk(n, pending) && dirty && PendingMoved(old(pending), pending, i, -1, 0 - WordCount(doc))
      ensures forall k :: k != i ==> Pending(pending, k) == Pending(old(pending), k)
    {
      hide Without, Count, WordCount;
      var tf := CountTerms(doc);
      var g := DeleteEntries(families[i], tf.Keys, pk);
      families := families[i := g];
      Accumulate(i, -1, 0 - WordCount(doc));
    }

    /** update_fts_index */
    method UpdateDoc(i: nat, oldDoc: Doc, newDoc: Doc, oldPk: Key, newPk: Key, written: bool)
      requires |families| == n && i < n && PendingOk(n, pending) && (pending != [] ==> dirty)
      requires Holds(families[i], oldDoc, oldPk) && NoClash(Terms(oldDoc)) && NoClash(Terms(newDoc))
      modifies this`families, this`pending, this`dirty
      ensures !written ==> families == old(families) && pending == old(pending) && dirty == old(dirty)
      ensures written ==> families == old(families)[i := Reinserted(old(families)[i], oldDoc, newDoc, oldPk, newPk)]
      ensures written ==> PendingMoved(old(pending), pending, i, 0, WordCount(newDoc) - WordCount(oldDoc))
      ensures PendingOk(n, pending) && (pending != [] ==> dirty)
      ensures forall k :: k != i ==> Pending(pending, k) == Pending(old(pending), k)
    {
      hide With, Without, Count, NoClash, WordCount, Holds;
      if !written {
        return;
      }
      var oldTf := CountTerms(oldDoc);
      var newTf := CountTerms(newDoc);
      var g := families[i];
      if newPk != oldPk {
        g := DeleteEntries(g, oldTf.Keys, oldPk);
        g := PutEntries(g, newDoc, newTf, newTf.Keys, newPk);
      } else {
        g := UpdateDiff(g, oldDoc, newDoc, oldTf, newTf, newPk);
        DiffIsReinsert(families[i], oldDoc, newDoc, newPk);
      }
      families := families[i := g];
      var words := WordCount(newDoc) - WordCount(oldDoc);
      if words != 0 {
        Accumulate(i, 0, words);
      }
    }

    /** write_row: the row and its postings. */
    method WriteRow(pk: Key, docs: seq<Doc>)
      requires Valid() && AllNoClash(rows) && pk !in rows && DocsFit(docs, n) && Bounded(rows[pk := docs], n)
      modifies this
      ensures Valid() && AllNoClash(rows) && rows == old(rows)[pk := docs] && durable == old(durable)
    {
      hide InStep, WordSum, With, Pending, NoClash, DocsOf, WordCount, OncePerKey;
      ghost var before := rows;
      rows := rows[pk := docs];
      HalfwayStart(n, before, rows, families, meta, pending);
      for i := 0 to n
        modifies this`families, this`pending, this`dirty
        invariant Halfway(n, i, before, rows, families, meta, pending)
        invariant PendingOk(n, pending) && (pending != [] ==> dirty)
      {
        ghost var f, was := families, pending;
        InsertDoc(i, pk, docs[i]);
        DocsOfAdded(before, n, i, pk, docs);
        DocsCount(rows, n, i);
        DocOf(before, n, i, pk);
        HalfwayNext(n, i, before, rows, f, meta, was);
        InStepAdd(DocsOf(before, n, i), f[i], meta, was, pending, i, pk, docs[i]);
        HalfwayStep(n, i, before, rows, f, meta, was, families, pending);
      }
      HalfwayEnd(n, before, rows, families, meta, pending);
    }

    /** delete_row: the row and its postings. */
    method DeleteRow(pk: Key)
      requires Valid() && AllNoClash(rows) && pk in rows
      modifies this
      ensures Valid() && AllNoClash(rows) && rows == old(rows) - {pk} && durable == old(durable)
    {
      hide InStep, WordSum, Without, Pending, NoClash, DocsOf, WordCount, OncePerKey;
      ghost var before := rows;
      var docs := rows[pk];
      rows := rows - {pk};
      HalfwayStart(n, before, rows, families, meta, pending);
      for i := 0 to n
        modifies this`families, this`pending, this`dirty
        invariant Halfway(n, i, before, rows, families, meta, pending)
        invariant PendingOk(n, pending) && (pending != [] ==> dirty)
      {
        ghost var f, was := families, pending;
        DeleteDoc(i, pk, docs[i]);
        DocsOfRemoved(before, n, i, pk);
        DocOf(before, n, i, pk);
        HalfwayNext(n, i, before, rows, f, meta, was);
        InStepRemove(DocsOf(before, n, i), f[i], meta, was, pending, i, pk);
        HalfwayStep(n, i, before, rows, f, meta, was, families, pending);
      }
      HalfwayEnd(n, before, rows, families, meta, pending);
    }

    /** update_row: the row, possibly under a new key, and its postings. */
    method UpdateRow(oldPk: Key, newPk: Key, docs: seq<Doc>, written: seq<bool>)
      requires Valid() && AllNoClash(rows) && oldPk in rows && (newPk == oldPk || newPk !in rows)
      requires DocsFit(docs, n) && |written| == n && Tracked(rows[oldPk], docs, written, oldPk, newPk)
      requires Bounded(MovedRow(rows, oldPk, newPk, docs), n)
      modifies this
      ensures Valid() && AllNoClash(rows) && rows == MovedRow(old(rows), oldPk, newPk, docs) && durable == old(durable)
    {
      hide InStep, WordSum, Reinserted, Pending, NoClash, DocsOf, WordCount, OncePerKey, Holds;
      ghost var before := rows;
      var oldDocs := rows[oldPk];
      if newPk != oldPk {
        rows := rows - {oldPk};
      }
      rows := rows[newPk := docs];
      assert rows == MovedRow(before, oldPk, newPk, docs);
      HalfwayStart(n, before, rows, families, meta, pending);
      for i := 0 to n
        modifies this`families, this`pending, this`dirty
        invariant Halfway(n, i, before, rows, families, meta, pending)
        invariant PendingOk(n, pending) && (pending != [] ==> dirty)
      {
        ghost var f, was := families, pending;
        HalfwayNext(n, i, before, rows, f, meta, was);
        DocOf(before, n, i, oldPk);
        DocOf(before, n, i, newPk);
        InStepHolds(DocsOf(before, n, i), f[i], meta, was, i, oldPk);
        UpdateDoc(i, oldDocs[i], docs[i], oldPk, newPk, written[i]);
        DocsOfMoved(before, n, i, oldPk, newPk, docs);
        if written[i] {
          InStepMove(DocsOf(before, n, i), f[i], meta, was, pending, i, oldPk, newPk, docs[i]);
        } else {
          InStepUntouched(DocsOf(before, n, i), f[i], meta, was, i, oldPk, newPk);
        }
        HalfwayStep(n, i, before, rows, f, meta, was, families, pending);
      }
      HalfwayEnd(n, before, rows, families, meta, pending);
    }

    /**
     Commit, and the mid-statement commit of maybe_bulk_commit: the pending totals go into the same
     transaction. A commit the library refuses rolls the transaction back.
     */
    method Commit(refused: bool)
      requires Valid() && AllNoClash(rows) && AllNoClash(durable.rows)
      modifies this
      ensures Valid() && AllNoClash(rows) && AllNoClash(durable.rows) && pending == []
      ensures durable.rows == if refused then old(durable).rows else old(rows)
      ensures rows == durable.rows
      ensures forall i :: 0 <= i < n ==>
        Loaded(durable.meta, i) == Totals(|durable.rows|, WordSum(DocsOf(durable.rows, n, i)))
    {
      hide Exact, WordSum, Loaded, DocsOf, NoClash;
      ghost var clamped := FlushPending();
      if refused {
        Rollback();
      } else {
        durable := Snapshot(rows, families, meta);
      }
      forall i | 0 <= i < n
        ensures Loaded(durable.meta, i) == Totals(|durable.rows|, WordSum(DocsOf(durable.rows, n, i)))
      {
        assert InStep(DocsOf(durable.rows, n, i), durable.families[i], durable.meta, [], i);
        DocsCount(durable.rows, n, i);
      }
    }

    /** Rollback: back to the last commit, with nothing pending. */
    method Rollback()
      requires AllInStep(n, durable.rows, durable.families, durable.meta, [])
      modifies this
      ensures Valid() && rows == durable.rows && pending == [] && durable == old(durable)
    {
      rows, families, meta := durable.rows, durable.families, durable.meta;
      pending, dirty := [], false;
    }

    /**
     Any run of row operations, commits in the middle of statements or at their end, and rollbacks: the
     postings follow the rows throughout, and so do the totals.
     */
    method Run(ops: seq<Op>)
      requires Valid() && AllNoClash(rows) && AllNoClash(durable.rows)
      requires Runnable(n, State(rows, durable.rows), ops)
      modifies this
      ensures Valid()
      ensures State(rows, durable.rows) == Steps(old(State(rows, durable.rows)), ops)
      decreases |ops|
    {
      hide AllInStep, Issuable, AllNoClash;
      if |ops| > 0 {
        RunOne(ops[0]);
        Run(ops[1..]);
      }
    }

    method RunOne(op: Op)
      requires Valid() && AllNoClash(rows) && AllNoClash(durable.rows) && Issuable(n, State(rows, durable.rows), op)
      modifies this
      ensures Valid() && AllNoClash(rows) && AllNoClash(durable.rows)
      ensures State(rows, durable.rows) == Step(old(State(rows, durable.rows)), op)
    {
      hide AllInStep, AllNoClash, Bounded, DocsFit, Tracked;
      match op {
        case Insert(pk, docs) => WriteRow(pk, docs);
        case Update(oldPk, newPk, docs, written) => UpdateRow(oldPk, newPk, docs, written);
        case Delete(pk) => DeleteRow(pk);
        case Commit(refused) => Commit(refused);
        case Rollback => Rollback();
      }
    }
  }

  datatype Op =
    | Insert(pk: Key, docs: seq<Doc>)
    | Update(oldPk: Key, newPk: Key, newDocs: seq<Doc>, written: seq<bool>)
    | Delete(pk: Key)
    | Commit(refused: bool)
    | Rollback

  /** The rows the transaction sees and the committed ones. */
  datatype State = State(rows: Rows, durable: Rows)

  /** Keys are checked before a write, terms are distinct as stored, and an update is tracked. */
  ghost predicate Issuable(n: nat, st: State, op: Op) {
    match op
    case Insert(pk, docs) => pk !in st.rows && DocsFit(docs, n) && Bounded(st.rows[pk := docs], n)
    case Update(oldPk, newPk, docs, written) =>
      && oldPk in st.rows && (newPk == oldPk || newPk !in st.rows) && DocsFit(docs, n) && |written| == n
      && Tracked(st.rows[oldPk], docs, written, oldPk, newPk) && Bounded(MovedRow(st.rows, oldPk, newPk, docs), n)
    case Delete(pk) => pk in st.rows
    case _ => true
  }

  function Step(st: State, op: Op): State {
    match op
    case Insert(pk, docs) => st.(rows := st.rows[pk := docs])
    case Update(oldPk, newPk, docs, _) => st.(rows := MovedRow(st.rows, oldPk, newPk, docs))
    case Delete(pk) => st.(rows := st.rows - {pk})
    case Commit(refused) => if refused then State(st.durable, st.durable) else State(st.rows, st.rows)
    case Rollback => State(st.durable, st.durable)
  }

  function Steps(st: State, ops: seq<Op>): State
    decreases |ops|
  {
    if ops == [] then st else Steps(Step(st, ops[0]), ops[1..])
  }

  ghost predicate Runnable(n: nat, st: State, ops: seq<Op>)
    decreases |ops|
  {
    ops == [] || (Issuable(n, st, ops[0]) && Runnable(n, Step(st, ops[0]), ops[1..]))
  }

  /** The first i indexes follow the new rows, the others still the old ones. */
  ghost predicate Halfway(n: nat, i: nat, before: Rows, after: Rows, families: seq<Family>, meta: Meta,
                          pending: seq<Delta>) {
    && Wide(before, n) && Wide(after, n) && |families| == n && i <= n
    && (forall j :: 0 <= j < i ==> InStep(DocsOf(after, n, j), families[j], meta, pending, j))
    && (forall j :: i <= j < n ==> InStep(DocsOf(before, n, j), families[j], meta, pending, j))
  }

  lemma HalfwayStart(n: nat, before: Rows, after: Rows, families: seq<Family>, meta: Meta, pending: seq<Delta>)
    requires AllInStep(n, before, families, meta, pending) && Wide(after, n)
    ensures Halfway(n, 0, before, after, families, meta, pending)
  {
    hide InStep;
  }

  lemma HalfwayNext(n: nat, i: nat, before: Rows, after: Rows, families: seq<Family>, meta: Meta, pending: seq<Delta>)
    requires Halfway(n, i, before, after, families, meta, pending) && i < n
    ensures InStep(DocsOf(before, n, i), families[i], meta, pending, i)
  {
    hide InStep;
  }

  lemma HalfwayStep(n: nat, i: nat, before: Rows, after: Rows, families: seq<Family>, meta: Meta, pending: seq<Delta>,
                    families': seq<Family>, pending': seq<Delta>)
    requires Halfway(n, i, before, after, families, meta, pending) && i < n
    requires |families'| == n && forall j :: 0 <= j < n && j != i ==> families'[j] == families[j]
    requires forall k :: k != i ==> Pending(pending', k) == Pending(pending, k)
    requires InStep(DocsOf(after, n, i), families'[i], meta, pending', i)
    ensures Halfway(n, i + 1, before, after, families', meta, pending')
  {
    hide InStep, Pending;
    forall j | 0 <= j < i ensures InStep(DocsOf(after, n, j), families'[j], meta, pending', j) {
      InStepOther(DocsOf(after, n, j), families[j], meta, pending, pending', j);
    }
    forall j | i < j < n ensures InStep(DocsOf(before, n, j), families'[j], meta, pending', j) {
      InStepOther(DocsOf(before, n, j), families[j], meta, pending, pending', j);
    }
  }

  lemma HalfwayEnd(n: nat, before: Rows, after: Rows, families: seq<Family>, meta: Meta, pending: seq<Delta>)
    requires Halfway(n, n, before, after, families, meta, pending)
    ensures AllInStep(n, after, families, meta, pending)
  {
    hide InStep;
  }

  lemma InStepHolds(docs: Docs, f: Family, meta: Meta, pending: seq<Delta>, keynr: nat, pk: Key)
    requires InStep(docs, f, meta, pending, keynr) && pk in docs
    ensures Holds(f, docs[pk], pk)
  {}

  ghost predicate AllNoClash(rows: Rows) {
    forall pk, i :: pk in rows && 0 <= i < |rows[pk]| ==> NoClash(Terms(rows[pk][i]))
  }

  lemma DocOf(rows: Rows, n: nat, i: nat, pk: Key)
    requires Wide(rows, n) && i < n
    ensures pk in DocsOf(rows, n, i) <==> pk in rows
    ensures pk in rows ==> DocsOf(rows, n, i)[pk] == rows[pk][i]
  {}

  lemma InStepOther(docs: Docs, f: Family, meta: Meta, was: seq<Delta>, now: seq<Delta>, keynr: nat)
    requires InStep(docs, f, meta, was, keynr) && Pending(now, keynr) == Pending(was, keynr)
    ensures InStep(docs, f, meta, now, keynr)
  {}
}
