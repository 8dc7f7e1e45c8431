/**
 The inverted index of one full-text key: entry keys and values, and what writing, deleting and
 updating a document do to the family.

 A document is the sequence of its tokens. The family maps the entry key of (term, primary key) to the
 term frequency and the document length.
 */
module FullTextPostings {
  import opened Bytes

  const MAX_TERM_BYTES: nat := 512
  const TERM_LEN_PREFIX: nat := 2
  const VALUE_LEN: nat := 6
  const TF_LIMIT: nat := 0x1_0000
  const DOC_LEN_LIMIT: nat := 0x1_0000_0000

  type Key = seq<byte>
  type Term = seq<byte>
  type Doc = seq<Term>
  type Family = map<Key, seq<byte>>

  // ---- entry keys and values --------------------------------------------------------------

  /** The part of a term an entry key has room for. */
  function Stored(t: Term): (r: Term)
    ensures r <= t && |r| <= MAX_TERM_BYTES && (|r| == MAX_TERM_BYTES || r == t)
  {
    if |t| > MAX_TERM_BYTES then t[..MAX_TERM_BYTES] else t
  }

  /** build_key */
  function EntryKey(t: Term, pk: Key): Key {
    LittleEndian(|Stored(t)|, TERM_LEN_PREFIX) + Stored(t) + pk
  }

  lemma TermLength(n: nat)
    requires n <= MAX_TERM_BYTES
    ensures FromLittleEndian(LittleEndian(n, TERM_LEN_PREFIX)) == n
  {
    ConcreteWidths();
    LittleEndianRoundTrip(n, TERM_LEN_PREFIX);
  }

  /** Entries share a key exactly when the rows are the same and the terms agree in their stored bytes. */
  lemma EntryKeysClash(t: Term, p: Key, u: Term, q: Key)
    ensures EntryKey(t, p) == EntryKey(u, q) <==> p == q && Stored(t) == Stored(u)
  {
    hide LittleEndian, FromLittleEndian, Stored;
    var a, b := Stored(t), Stored(u);
    var la, lb := LittleEndian(|a|, TERM_LEN_PREFIX), LittleEndian(|b|, TERM_LEN_PREFIX);
    TermLength(|a|);
    TermLength(|b|);
    var x, y := la + a + p, lb + b + q;
    assert x[..2] == la && y[..2] == lb;
    assert x[2..] == a + p && y[2..] == b + q;
    if x == y {
      assert |a| == |b|;
      assert (a + p)[..|a|] == a && (b + q)[..|b|] == b;
      assert (a + p)[|a|..] == p && (b + q)[|b|..] == q;
    }
  }

  function Count(doc: Doc, t: Term): nat {
    multiset(doc)[t]
  }

  function WordCount(doc: Doc): (n: nat)
    ensures |doc| < DOC_LEN_LIMIT ==> n == |doc|
  {
    |doc| % DOC_LEN_LIMIT
  }

  /** encode_entry_value of a 16-bit frequency and a 32-bit length. */
  function EntryValue(tf: nat, docLen: nat): seq<byte> {
    LittleEndian(tf, 2) + LittleEndian(docLen, 4)
  }

  function DecodeEntryValue(v: seq<byte>): (nat, nat)
    requires |v| >= VALUE_LEN
  {
    (FromLittleEndian(v[..2]), FromLittleEndian(v[2..VALUE_LEN]))
  }

  lemma EntryValueRoundTrip(tf: nat, docLen: nat)
    requires tf < TF_LIMIT && docLen < DOC_LEN_LIMIT
    ensures |EntryValue(tf, docLen)| == VALUE_LEN
    ensures DecodeEntryValue(EntryValue(tf, docLen)) == (tf, docLen)
  {
    hide LittleEndian, FromLittleEndian;
    ConcreteWidths();
    LittleEndianRoundTrip(tf, 2);
    LittleEndianRoundTrip(docLen, 4);
    var v := EntryValue(tf, docLen);
    assert v[..2] == LittleEndian(tf, 2) && v[2..6] == LittleEndian(docLen, 4);
  }

  /** What the entry of a term of the document has to hold. */
  function ValueIn(doc: Doc, t: Term): seq<byte> {
    EntryValue(Count(doc, t) % TF_LIMIT, WordCount(doc))
  }

  // ---- sets of entries --------------------------------------------------------------------

  function Terms(doc: Doc): set<Term> {
    set t | t in doc
  }

  function KeysFor(terms: set<Term>, pk: Key): set<Key> {
    set t | t in terms :: EntryKey(t, pk)
  }

  /** No two of the terms are the same in the bytes that are stored. */
  predicate NoClash(terms: set<Term>) {
    forall t, u :: t in terms && u in terms && t != u ==> Stored(t) != Stored(u)
  }

  lemma NoClashKeys(terms: set<Term>, pk: Key)
    requires NoClash(terms)
    ensures forall t, u :: t in terms && u in terms && EntryKey(t, pk) == EntryKey(u, pk) ==> t == u
  {
    hide EntryKey, Stored;
    forall t, u | t in terms && u in terms && EntryKey(t, pk) == EntryKey(u, pk) ensures t == u {
      EntryKeysClash(t, pk, u, pk);
    }
  }

  /** The family with the given terms of the document deleted. */
  function Without(f: Family, terms: set<Term>, pk: Key): Family {
    f - KeysFor(terms, pk)
  }

  /** The family with the given terms of the document written. */
  ghost function With(f: Family, doc: Doc, terms: set<Term>, pk: Key): Family
    requires NoClash(terms)
  {
    NoClashKeys(terms, pk);
    f + map t | t in terms :: EntryKey(t, pk) := ValueIn(doc, t)
  }

  lemma WithAt(f: Family, doc: Doc, terms: set<Term>, pk: Key)
    requires NoClash(terms)
    ensures With(f, doc, terms, pk).Keys == f.Keys + KeysFor(terms, pk)
    ensures forall t :: t in terms ==> EntryKey(t, pk) in With(f, doc, terms, pk)
    ensures forall t :: t in terms ==> With(f, doc, terms, pk)[EntryKey(t, pk)] == ValueIn(doc, t)
    ensures forall k :: k in f && k !in KeysFor(terms, pk) ==> With(f, doc, terms, pk)[k] == f[k]
  {
    hide EntryKey, ValueIn, Stored;
    NoClashKeys(terms, pk);
    forall t | t in terms
      ensures EntryKey(t, pk) in With(f, doc, terms, pk) && With(f, doc, terms, pk)[EntryKey(t, pk)] == ValueIn(doc, t)
    {}
  }

  /** The document's entries are in the family. */
  ghost predicate Holds(f: Family, doc: Doc, pk: Key) {
    forall t :: t in doc ==> EntryKey(t, pk) in f && f[EntryKey(t, pk)] == ValueIn(doc, t)
  }

  // ---- update: the term-level diff --------------------------------------------------------

  /** A term is rewritten unless its frequency and the document length both stay. */
  predicate NeedPut(oldDoc: Doc, newDoc: Doc, t: Term) {
    || t !in oldDoc
    || WordCount(oldDoc) != WordCount(newDoc)
    || Count(oldDoc, t) % TF_LIMIT != Count(newDoc, t) % TF_LIMIT
  }

  ghost function Diffed(f: Family, oldDoc: Doc, newDoc: Doc, pk: Key): Family
    requires NoClash(Terms(newDoc))
  {
    var changed := set t | t in newDoc && NeedPut(oldDoc, newDoc, t);
    With(Without(f, Terms(oldDoc) - Terms(newDoc), pk), newDoc, changed, pk)
  }

  ghost function Reinserted(f: Family, oldDoc: Doc, newDoc: Doc, oldPk: Key, newPk: Key): Family
    requires NoClash(Terms(newDoc))
  {
    With(Without(f, Terms(oldDoc), oldPk), newDoc, Terms(newDoc), newPk)
  }

  /** A dropped term has the stored bytes of a kept term that is not rewritten. */
  ghost predicate LosesEntry(oldDoc: Doc, newDoc: Doc) {
    exists d, t :: d in oldDoc && d !in newDoc && t in newDoc && !NeedPut(oldDoc, newDoc, t) && Stored(d) == Stored(t)
  }

  /**
   Writing only what changed gives the family that deleting everything and writing it all gives,
   exactly when no dropped term takes the entry of a kept one with it.
   */
  lemma DiffIsReinsertIff(f: Family, oldDoc: Doc, newDoc: Doc, pk: Key)
    requires Holds(f, oldDoc, pk) && NoClash(Terms(newDoc))
    ensures Diffed(f, oldDoc, newDoc, pk) == Reinserted(f, oldDoc, newDoc, pk, pk) <==> !LosesEntry(oldDoc, newDoc)
  {
    hide EntryKey, Stored, With, ValueIn, NoClash, Holds, NeedPut, LosesEntry, Diffed, Reinserted;
    if LosesEntry(oldDoc, newDoc) {
      EntryIsLost(f, oldDoc, newDoc, pk);
    } else {
      NothingIsLost(f, oldDoc, newDoc, pk);
    }
  }

  /** In particular when the terms of each document differ in their stored bytes. */
  lemma DiffIsReinsert(f: Family, oldDoc: Doc, newDoc: Doc, pk: Key)
    requires Holds(f, oldDoc, pk) && NoClash(Terms(oldDoc)) && NoClash(Terms(newDoc))
    ensures Diffed(f, oldDoc, newDoc, pk) == Reinserted(f, oldDoc, newDoc, pk, pk)
  {
    hide Stored, Holds, Diffed, Reinserted;
    DiffIsReinsertIff(f, oldDoc, newDoc, pk);
  }

  lemma EntryIsLost(f: Family, oldDoc: Doc, newDoc: Doc, pk: Key)
    requires NoClash(Terms(newDoc)) && LosesEntry(oldDoc, newDoc)
    ensures Diffed(f, oldDoc, newDoc, pk) != Reinserted(f, oldDoc, newDoc, pk, pk)
  {
    hide EntryKey, Stored, With, ValueIn, NoClash, NeedPut;
    var o, n := Terms(oldDoc), Terms(newDoc);
    var changed := set t | t in newDoc && NeedPut(oldDoc, newDoc, t);
    var d, t :| d in oldDoc && d !in newDoc && t in newDoc && !NeedPut(oldDoc, newDoc, t) && Stored(d) == Stored(t);
    NoClashSubset(n, changed);
    NoClashKeys(n, pk);
    EntryKeysClash(d, pk, t, pk);
    WithAt(Without(f, o - n, pk), newDoc, changed, pk);
    WithAt(Without(f, o, pk), newDoc, n, pk);
    assert d in o - n;
    assert EntryKey(t, pk) !in Diffed(f, oldDoc, newDoc, pk);
    assert EntryKey(t, pk) in Reinserted(f, oldDoc, newDoc, pk, pk);
  }

  lemma NothingIsLost(f: Family, oldDoc: Doc, newDoc: Doc, pk: Key)
    requires Holds(f, oldDoc, pk) && NoClash(Terms(newDoc)) && !LosesEntry(oldDoc, newDoc)
    ensures Diffed(f, oldDoc, newDoc, pk) == Reinserted(f, oldDoc, newDoc, pk, pk)
  {
    hide EntryKey, Stored, With, ValueIn, NoClash, Holds, NeedPut, Without, KeysFor, LosesEntry;
    var o, n := Terms(oldDoc), Terms(newDoc);
    var changed := set t | t in newDoc && NeedPut(oldDoc, newDoc, t);
    NoClashSubset(n, changed);
    var a, b := Diffed(f, oldDoc, newDoc, pk), Reinserted(f, oldDoc, newDoc, pk, pk);
    WithAt(Without(f, o - n, pk), newDoc, changed, pk);
    WithAt(Without(f, o, pk), newDoc, n, pk);
    SameKeys(f, oldDoc, newDoc, changed, pk);
    forall k | k in a ensures a[k] == b[k] {
      if k in KeysFor(n, pk) {
        var t := TermOf(n, pk, k);
        if t !in changed {
          KeptValue(f, oldDoc, newDoc, changed, t, pk);
        }
      } else {
        OtherValue(f, o, n, changed, k, pk);
      }
    }
  }

  /** A kept term that is not rewritten does not share its key with a dropped term. */
  lemma KeptKey(oldDoc: Doc, newDoc: Doc, t: Term, pk: Key)
    requires !LosesEntry(oldDoc, newDoc) && t in newDoc && !NeedPut(oldDoc, newDoc, t)
    ensures EntryKey(t, pk) !in KeysFor(Terms(oldDoc) - Terms(newDoc), pk)
  {
    hide EntryKey, Stored, NeedPut;
    forall d | d in oldDoc && d !in newDoc ensures EntryKey(d, pk) != EntryKey(t, pk) {
      EntryKeysClash(d, pk, t, pk);
    }
  }

  lemma TermOf(terms: set<Term>, pk: Key, k: Key) returns (t: Term)
    requires k in KeysFor(terms, pk)
    ensures t in terms && k == EntryKey(t, pk)
  {
    hide EntryKey;
    t :| t in terms && k == EntryKey(t, pk);
  }

  /** Both ways leave entries under the same keys. */
  lemma SameKeys(f: Family, oldDoc: Doc, newDoc: Doc, changed: set<Term>, pk: Key)
    requires Holds(f, oldDoc, pk) && !LosesEntry(oldDoc, newDoc)
    requires changed == set t | t in newDoc && NeedPut(oldDoc, newDoc, t)
    ensures Without(f, Terms(oldDoc) - Terms(newDoc), pk).Keys + KeysFor(changed, pk)
         == Without(f, Terms(oldDoc), pk).Keys + KeysFor(Terms(newDoc), pk)
  {
    hide EntryKey, Stored, ValueIn, NoClash, KeysFor, WordCount, Count, LosesEntry;
    forall t | t in newDoc && t !in changed
      ensures t in oldDoc && EntryKey(t, pk) !in KeysFor(Terms(oldDoc) - Terms(newDoc), pk)
    {
      KeptKey(oldDoc, newDoc, t, pk);
    }
    DiffKeys(f, Terms(oldDoc), Terms(newDoc), changed, pk);
  }

  /** A term that is not rewritten still has its entry, with the value it should have. */
  lemma KeptValue(f: Family, oldDoc: Doc, newDoc: Doc, changed: set<Term>, t: Term, pk: Key)
    requires Holds(f, oldDoc, pk) && NoClash(Terms(newDoc)) && !LosesEntry(oldDoc, newDoc)
    requires changed == set u | u in newDoc && NeedPut(oldDoc, newDoc, u)
    requires t in newDoc && t !in changed
    ensures var k, g := EntryKey(t, pk), Without(f, Terms(oldDoc) - Terms(newDoc), pk);
      k !in KeysFor(changed, pk) && k in g && g[k] == ValueIn(newDoc, t)
  {
    hide EntryKey, Stored, ValueIn, NoClash, WordCount, Count, LosesEntry;
    KeptKey(oldDoc, newDoc, t, pk);
    NoClashKeys(Terms(newDoc), pk);
    SameValue(oldDoc, newDoc, t);
  }

  /** An entry of another row or term is not touched. */
  lemma OtherValue(f: Family, o: set<Term>, n: set<Term>, changed: set<Term>, k: Key, pk: Key)
    requires changed <= n && k !in KeysFor(n, pk)
    requires k in Without(f, o - n, pk).Keys + KeysFor(changed, pk)
    requires k in Without(f, o, pk).Keys + KeysFor(n, pk)
    ensures k !in KeysFor(changed, pk) && k in Without(f, o - n, pk) && k in Without(f, o, pk)
    ensures Without(f, o - n, pk)[k] == Without(f, o, pk)[k]
  {
    hide EntryKey;
  }

  lemma SameValue(oldDoc: Doc, newDoc: Doc, t: Term)
    requires !NeedPut(oldDoc, newDoc, t)
    ensures ValueIn(oldDoc, t) == ValueIn(newDoc, t)
  {}

  lemma NoClashSubset(terms: set<Term>, some: set<Term>)
    requires NoClash(terms) && some <= terms
    ensures NoClash(some)
  {}

  lemma DiffKeys(f: Family, o: set<Term>, n: set<Term>, changed: set<Term>, pk: Key)
    requires changed <= n && (forall t :: t in n && t !in changed ==> t in o)
    requires forall t :: t in o ==> EntryKey(t, pk) in f
    requires forall t :: t in n && t !in changed ==> EntryKey(t, pk) !in KeysFor(o - n, pk)
    ensures (f.Keys - KeysFor(o - n, pk)) + KeysFor(changed, pk) == (f.Keys - KeysFor(o, pk)) + KeysFor(n, pk)
  {
    hide EntryKey;
    var a, b := (f.Keys - KeysFor(o - n, pk)) + KeysFor(changed, pk), (f.Keys - KeysFor(o, pk)) + KeysFor(n, pk);
    forall k | k in a ensures k in b {
      if k in KeysFor(changed, pk) {
        var t :| t in changed && k == EntryKey(t, pk);
        assert k in KeysFor(n, pk);
      } else if k in KeysFor(o, pk) {
        var t :| t in o && k == EntryKey(t, pk);
        assert t in n;
      }
    }
    forall k | k in b ensures k in a {
      if k in KeysFor(n, pk) {
        var t :| t in n && k == EntryKey(t, pk);
        if t !in changed {
          assert k in f.Keys;
        }
      } else {
        assert k !in KeysFor(o - n, pk);
      }
    }
  }

  /**
   Two terms of one document that agree in their first 512 bytes share an entry. Dropping one of them
   deletes the entry, and the diff does not write the other one again.
   */
  lemma ClashLosesPosting(f: Family, a: Term, b: Term, c: Term, pk: Key)
    requires a != b && Stored(a) == Stored(b) && Stored(a) != Stored(c)
    ensures NoClash(Terms([a, c, c]))
    ensures EntryKey(a, pk) !in Diffed(f, [a, b, c], [a, c, c], pk)
    ensures EntryKey(a, pk) in Reinserted(f, [a, b, c], [a, c, c], pk, pk)
  {
    hide EntryKey, With, Stored, NeedPut, NoClash;
    var o, n := [a, b, c], [a, c, c];
    var changed := set t | t in n && NeedPut(o, n, t);
    KeptTerm(a, b, c);
    EntryKeysClash(a, pk, b, pk);
    EntryKeysClash(a, pk, c, pk);
    assert EntryKey(b, pk) in KeysFor(Terms(o) - Terms(n), pk);
    NoClashSubset(Terms(n), changed);
    WithAt(Without(f, Terms(o) - Terms(n), pk), n, changed, pk);
    WithAt(Without(f, Terms(o), pk), n, Terms(n), pk);
  }

  lemma KeptTerm(a: Term, b: Term, c: Term)
    requires a != b && Stored(a) == Stored(b) && Stored(a) != Stored(c)
    ensures !NeedPut([a, b, c], [a, c, c], a) && b in Terms([a, b, c]) - Terms([a, c, c])
    ensures Terms([a, c, c]) == {a, c} && NoClash(Terms([a, c, c])) && a != c
    ensures forall t :: t in [a, c, c] ==> t == a || t == c
  {
    hide Stored;
    assert Count([a, b, c], a) == 1 && Count([a, c, c], a) == 1;
    assert WordCount([a, b, c]) == WordCount([a, c, c]);
  }

  // ---- the loops of the source ------------------------------------------------------------

  /** tf_map[tok]++ over the tokens; the counters are 16 bits wide. */
  method CountTerms(doc: Doc) returns (tf: map<Term, nat>)
    ensures tf.Keys == Terms(doc)
    ensures forall t :: t in doc ==> tf[t] == Count(doc, t) % TF_LIMIT
  {
    tf := map[];
    for i := 0 to |doc|
      invariant tf.Keys == Terms(doc[..i])
      invariant forall t :: t in tf ==> tf[t] == Count(doc[..i], t) % TF_LIMIT
    {
      var t := doc[i];
      assert doc[..i + 1] == doc[..i] + [t];
      assert Terms(doc[..i + 1]) == Terms(doc[..i]) + {t};
      CountSnoc(doc[..i], t);
      tf := tf[t := ((if t in tf then tf[t] else 0) + 1) % TF_LIMIT];
    }
    assert doc[..|doc|] == doc;
  }

  lemma CountSnoc(doc: Doc, t: Term)
    ensures Count(doc + [t], t) % TF_LIMIT == ((if t in doc then Count(doc, t) % TF_LIMIT else 0) + 1) % TF_LIMIT
    ensures forall u :: u != t ==> Count(doc + [t], u) == Count(doc, u)
  {
    assert Count(doc + [t], t) == Count(doc, t) + 1;
    assert t in doc <==> Count(doc, t) > 0;
  }

  /** Delete the entries of the terms, in whatever order the hash map yields them. */
  method DeleteEntries(f: Family, terms: set<Term>, pk: Key) returns (g: Family)
    ensures g == Without(f, terms, pk)
  {
    hide EntryKey;
    g := f;
    var rest := terms;
    while rest != {}
      invariant rest <= terms
      invariant g == Without(f, terms - rest, pk)
      decreases |rest|
    {
      var t :| t in rest;
      assert KeysFor(terms - (rest - {t}), pk) == KeysFor(terms - rest, pk) + {EntryKey(t, pk)} by {
        assert terms - (rest - {t}) == (terms - rest) + {t};
      }
      g := g - {EntryKey(t, pk)};
      rest := rest - {t};
    }
    assert terms - rest == terms;
  }

  /** Write the entries of the terms with their frequency and the document's length. */
  method PutEntries(f: Family, doc: Doc, tf: map<Term, nat>, terms: set<Term>, pk: Key) returns (g: Family)
    requires NoClash(terms) && terms <= Terms(doc) <= tf.Keys
    requires forall t :: t in doc ==> tf[t] == Count(doc, t) % TF_LIMIT
    ensures g == With(f, doc, terms, pk)
  {
    hide EntryKey, NoClash, EntryValue, Count, WordCount, With;
    g := f;
    var rest := terms;
    NoClashSubset(terms, {});
    WithNothing(f, doc, pk);
    assert terms - rest == {};
    while rest != {}
      invariant rest <= terms && NoClash(terms - rest)
      invariant g == With(f, doc, terms - rest, pk)
      decreases |rest|
    {
      var t :| t in rest;
      assert (terms - rest) + {t} == terms - (rest - {t});
      NoClashSubset(terms, terms - (rest - {t}));
      WithSnoc(f, doc, terms - rest, t, pk);
      g := g[EntryKey(t, pk) := EntryValue(tf[t], WordCount(doc))];
      rest := rest - {t};
    }
    assert terms - rest == terms;
  }

  lemma WithNothing(f: Family, doc: Doc, pk: Key)
    ensures NoClash({}) && With(f, doc, {}, pk) == f
  {}

  lemma WithSnoc(f: Family, doc: Doc, terms: set<Term>, t: Term, pk: Key)
    requires NoClash(terms + {t}) && NoClash(terms) && t !in terms
    ensures With(f, doc, terms + {t}, pk) == With(f, doc, terms, pk)[EntryKey(t, pk) := ValueIn(doc, t)]
  {
    hide EntryKey, NoClash, With, ValueIn;
    WithAt(f, doc, terms, pk);
    WithAt(f, doc, terms + {t}, pk);
    NoClashKeys(terms + {t}, pk);
    var a, b := With(f, doc, terms + {t}, pk), With(f, doc, terms, pk)[EntryKey(t, pk) := ValueIn(doc, t)];
    assert KeysFor(terms + {t}, pk) == KeysFor(terms, pk) + {EntryKey(t, pk)};
    forall k | k in a ensures k in b && a[k] == b[k] {
      if k in KeysFor(terms, pk) {
        var u :| u in terms && k == EntryKey(u, pk);
        assert u in terms + {t};
        assert t in terms + {t};
      }
      assert t in terms + {t};
    }
  }

  /** update_fts_index_diff */
  method UpdateDiff(f: Family, oldDoc: Doc, newDoc: Doc, oldTf: map<Term, nat>, newTf: map<Term, nat>, pk: Key)
    returns (g: Family)
    requires oldTf.Keys == Terms(oldDoc) && newTf.Keys == Terms(newDoc) && NoClash(Terms(newDoc))
    requires forall t :: t in oldDoc ==> oldTf[t] == Count(oldDoc, t) % TF_LIMIT
    requires forall t :: t in newDoc ==> newTf[t] == Count(newDoc, t) % TF_LIMIT
    ensures g == Diffed(f, oldDoc, newDoc, pk)
  {
    hide With, Without, Count, WordCount;
    var gone := set t | t in oldTf && t !in newTf;
    assert gone == Terms(oldDoc) - Terms(newDoc);
    g := DeleteEntries(f, gone, pk);
    var docLenChanged := WordCount(oldDoc) != WordCount(newDoc);
    var changed := set t | t in newTf && (t !in oldTf || docLenChanged || oldTf[t] != newTf[t]);
    assert changed == set t | t in newDoc && NeedPut(oldDoc, newDoc, t);
    g := PutEntries(g, newDoc, newTf, changed, pk);
  }
}
