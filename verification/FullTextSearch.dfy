/**
 Full-text search: retrieving the postings of a query term by seek and walk, and deciding which
 documents survive the scoring pass. The BM25 score itself is not modelled, only which documents have
 one.
 */
module FullTextSearch {
  import opened Bytes
  import opened FullTextPostings
  import FullText
  import Store

  datatype Requirement = Optional | Required | Excluded

  datatype QueryTerm = QueryTerm(term: Term, trunc: bool, req: Requirement)

  datatype Posting = Posting(pk: Key, tf: nat, docLen: nat)

  // ---- which entries a term retrieves -----------------------------------------------------

  function StoredLength(k: Key): nat
    requires |k| >= TERM_LEN_PREFIX
  {
    FromLittleEndian(k[..TERM_LEN_PREFIX])
  }

  /** A whole entry: length, that many term bytes, a primary key, and a whole value. */
  predicate WholeEntry(f: Family, k: Key)
    requires k in f
  {
    && |k| >= TERM_LEN_PREFIX && StoredLength(k) <= MAX_TERM_BYTES && |k| > TERM_LEN_PREFIX + StoredLength(k)
    && |f[k]| >= VALUE_LEN
  }

  predicate WholeFamily(f: Family) {
    forall k :: k in f ==> WholeEntry(f, k)
  }

  function PkOf(k: Key): Key
    requires |k| >= TERM_LEN_PREFIX && |k| >= TERM_LEN_PREFIX + StoredLength(k)
  {
    k[TERM_LEN_PREFIX + StoredLength(k)..]
  }

  function Bucket(n: nat, q: Term): Key {
    LittleEndian(n, TERM_LEN_PREFIX) + q
  }

  /** The longest term a truncated query reaches. */
  function Reach(maxWordLen: nat): (n: nat)
    ensures n <= maxWordLen && n <= MAX_TERM_BYTES && (n == maxWordLen || n == MAX_TERM_BYTES)
  {
    if maxWordLen > MAX_TERM_BYTES then MAX_TERM_BYTES else maxWordLen
  }

  predicate InBuckets(q: Term, lo: nat, hi: nat, k: Key) {
    exists n :: lo <= n < hi && Bucket(n, q) <= k
  }

  /** The keys the term retrieves. */
  ghost predicate Retrieved(qt: QueryTerm, maxWordLen: nat, k: Key) {
    var q := Stored(qt.term);
    if qt.trunc then InBuckets(q, |q|, Reach(maxWordLen) + 1, k) else Bucket(|q|, q) <= k
  }

  ghost function RetrievedKeys(f: Family, qt: QueryTerm, maxWordLen: nat): set<Key> {
    set k | k in f && Retrieved(qt, maxWordLen, k)
  }

  /** A stored term matches a query term. */
  predicate TermMatches(qt: QueryTerm, maxWordLen: nat, t: Term) {
    if qt.trunc then Stored(qt.term) <= Stored(t) && |Stored(t)| <= Reach(maxWordLen)
    else Stored(t) == Stored(qt.term)
  }

  lemma BucketOfEntry(n: nat, q: Term, t: Term, pk: Key)
    requires |q| <= n <= MAX_TERM_BYTES
    ensures Bucket(n, q) <= EntryKey(t, pk) <==> |Stored(t)| == n && q <= Stored(t)
  {
    hide LittleEndian, FromLittleEndian, Stored;
    var s := Stored(t);
    TermLength(n);
    TermLength(|s|);
    var k, b := EntryKey(t, pk), Bucket(n, q);
    var ln, ls := LittleEndian(n, TERM_LEN_PREFIX), LittleEndian(|s|, TERM_LEN_PREFIX);
    assert k[..2] == ls && k[2..] == s + pk;
    assert b[..2] == ln && b[2..] == q;
    if b <= k {
      assert b[..2] == k[..2];
      assert q == (s + pk)[..|q|];
      assert q == s[..|q|];
    }
    if |s| == n && q <= s {
      assert k[..|b|] == ln + (s + pk)[..|q|];
      assert (s + pk)[..|q|] == s[..|q|] == q;
    }
  }

  /** A term retrieves exactly the entries of the terms it matches. */
  lemma RetrievedMatches(qt: QueryTerm, maxWordLen: nat, t: Term, pk: Key)
    ensures Retrieved(qt, maxWordLen, EntryKey(t, pk)) <==> TermMatches(qt, maxWordLen, t)
  {
    hide EntryKey, Stored, Bucket;
    var q, s := Stored(qt.term), Stored(t);
    if qt.trunc {
      forall n | |q| <= n < Reach(maxWordLen) + 1
        ensures Bucket(n, q) <= EntryKey(t, pk) <==> |s| == n && q <= s
      {
        BucketOfEntry(n, q, t, pk);
      }
      if TermMatches(qt, maxWordLen, t) {
        assert Bucket(|s|, q) <= EntryKey(t, pk);
      }
    } else {
      BucketOfEntry(|q|, q, t, pk);
      assert |s| == |q| && q <= s ==> s == q;
    }
  }

  lemma EntryParts(t: Term, pk: Key)
    ensures |EntryKey(t, pk)| >= TERM_LEN_PREFIX && StoredLength(EntryKey(t, pk)) == |Stored(t)|
    ensures |EntryKey(t, pk)| == TERM_LEN_PREFIX + |Stored(t)| + |pk| && PkOf(EntryKey(t, pk)) == pk
  {
    hide LittleEndian, FromLittleEndian, Stored;
    var k := EntryKey(t, pk);
    TermLength(|Stored(t)|);
    assert k[..2] == LittleEndian(|Stored(t)|, TERM_LEN_PREFIX);
    assert k[2 + |Stored(t)|..] == pk;
  }

  lemma BucketLength(n: nat, q: Term, k: Key)
    requires n <= MAX_TERM_BYTES && Bucket(n, q) <= k
    ensures |k| >= TERM_LEN_PREFIX && StoredLength(k) == n
  {
    hide LittleEndian, FromLittleEndian;
    TermLength(n);
    assert k[..2] == Bucket(n, q)[..2] == LittleEndian(n, TERM_LEN_PREFIX);
  }

  // ---- seek and walk ----------------------------------------------------------------------

  function PostingAt(f: Family, k: Key): Posting
    requires k in f && WholeEntry(f, k)
  {
    var v := DecodeEntryValue(f[k]);
    Posting(PkOf(k), v.0, v.1)
  }

  predicate DistinctKeys(ks: seq<Key>) {
    forall i, j :: 0 <= i < j < |ks| ==> ks[i] != ks[j]
  }

  /** The postings are those of the listed keys, and each key of the set is listed once. */
  ghost predicate Lists(f: Family, ps: seq<Posting>, ks: seq<Key>, keys: set<Key>) {
    && |ps| == |ks| && DistinctKeys(ks) && (forall k :: k in ks <==> k in keys) && keys <= f.Keys
    && forall i :: 0 <= i < |ks| ==> ks[i] in f && WholeEntry(f, ks[i]) && ps[i] == PostingAt(f, ks[i])
  }

  /** The postings are those of the keys of the set, each once. */
  ghost predicate Gathered(f: Family, ps: seq<Posting>, keys: set<Key>) {
    exists ks :: Lists(f, ps, ks, keys)
  }

  lemma ListsSnoc(f: Family, ps: seq<Posting>, ks: seq<Key>, keys: set<Key>, k: Key)
    requires Lists(f, ps, ks, keys) && k in f && WholeEntry(f, k) && k !in keys
    ensures Lists(f, ps + [PostingAt(f, k)], ks + [k], keys + {k})
  {
    hide WholeEntry, PostingAt;
  }

  lemma ListsConcat(f: Family, ps: seq<Posting>, ks: seq<Key>, keys: set<Key>,
                    ps': seq<Posting>, ks': seq<Key>, keys': set<Key>)
    requires Lists(f, ps, ks, keys) && Lists(f, ps', ks', keys') && keys !! keys'
    ensures Lists(f, ps + ps', ks + ks', keys + keys')
  {
    hide WholeEntry, PostingAt;
    var all := ks + ks';
    forall i, j | 0 <= i < j < |all| ensures all[i] != all[j] {
      assert i < |ks| ==> all[i] == ks[i] && all[i] in keys;
      assert i >= |ks| ==> all[i] == ks'[i - |ks|];
      assert j < |ks| ==> all[j] == ks[j];
      assert j >= |ks| ==> all[j] == ks'[j - |ks|] && all[j] in keys';
    }
  }

  lemma GatheredNothing(f: Family)
    ensures Gathered(f, [], {})
  {
    assert Lists(f, [], [], {});
  }

  lemma GatheredConcat(f: Family, ps: seq<Posting>, keys: set<Key>, ps': seq<Posting>, keys': set<Key>)
    requires Gathered(f, ps, keys) && Gathered(f, ps', keys') && keys !! keys'
    ensures Gathered(f, ps + ps', keys + keys')
  {
    hide Lists;
    var ks :| Lists(f, ps, ks, keys);
    var ks' :| Lists(f, ps', ks', keys');
    ListsConcat(f, ps, ks, keys, ps', ks', keys');
  }

  ghost function WithPrefix(keys: set<Key>, p: Key): set<Key> {
    set k | k in keys && p <= k
  }

  ghost function Before(keys: set<Key>, k: Key): set<Key> {
    set j | j in keys && Less(j, k)
  }

  ghost function From(keys: set<Key>, k: Key): set<Key> {
    set j | j in keys && !Less(j, k)
  }

  lemma NextBefore(keys: set<Key>, at: Key, next: Key)
    requires at in keys && Store.IsNextAfter(keys, at, next)
    ensures Before(keys, next) == Before(keys, at) + {at}
    ensures From(keys, next) < From(keys, at)
  {
    hide Less;
    LessIrreflexive(at);
    forall j | j in keys ensures Less(j, next) <==> j == at || Less(j, at) {
      LessTrichotomy(j, at);
      LessTrichotomy(j, next);
      if Less(j, at) { LessTransitive(j, at, next); }
    }
    assert at in From(keys, at) && at !in From(keys, next);
  }

  lemma NoNext(keys: set<Key>, at: Key)
    requires at in keys && forall j :: j in keys ==> !Less(at, j)
    ensures keys == Before(keys, at) + {at}
  {
    forall j | j in keys ensures Less(j, at) || j == at {
      LessTrichotomy(j, at);
    }
  }

  /** Nothing before the place a seek to p lands on begins with p. */
  lemma SeekSkipsNone(keys: set<Key>, p: Key, k: Key)
    requires Store.IsFirstFrom(keys, p, k)
    ensures WithPrefix(Before(keys, k), p) == {}
  {
    forall j | j in keys && p <= j ensures !Less(j, k) {
      NotBelowPrefix(p, j);
    }
  }

  lemma NotBelowPrefix(p: Key, j: Key)
    requires p <= j
    ensures !Less(j, p)
  {
    PrefixSortsFirst(p, j[|p|..]);
    assert j == p + j[|p|..];
    LessTrichotomy(p, j);
    LessIrreflexive(p);
  }

  /** The walk ends at a key outside the block: no key from there on begins with p. */
  lemma WalkEnds(keys: set<Key>, p: Key, k: Key)
    requires k in keys && !Less(k, p) && !(p <= k)
    ensures WithPrefix(keys, p) == WithPrefix(Before(keys, k), p)
  {
    forall j | j in keys && p <= j ensures Less(j, k) {
      LessTrichotomy(j, k);
      LessTrichotomy(p, k);
      if Less(k, j) {
        PrefixBlock(p, k, j);
      }
    }
  }

  /** One seek and the walk after it, over the entries of one bucket. */
  method WalkBucket(f: Family, n: nat, q: Term) returns (ps: seq<Posting>)
    requires WholeFamily(f) && |q| <= n <= MAX_TERM_BYTES
    ensures Gathered(f, ps, WithPrefix(f.Keys, Bucket(n, q)))
  {
    hide Less, WholeEntry, Bucket, PostingAt, Lists;
    var prefix := Bucket(n, q);
    ghost var ks: seq<Key> := [];
    ps := [];
    ListsNothing(f);
    var valid, k := Store.Seek(f.Keys, prefix);
    if !valid {
      NothingFrom(f.Keys, prefix);
      return;
    }
    SeekSkipsNone(f.Keys, prefix, k);
    while valid
      invariant valid ==> k in f.Keys && !Less(k, prefix)
      invariant valid ==> Lists(f, ps, ks, WithPrefix(Before(f.Keys, k), prefix))
      invariant !valid ==> Lists(f, ps, ks, WithPrefix(f.Keys, prefix))
      decreases valid, if valid then From(f.Keys, k) else {}
    {
      if !(prefix <= k) {
        WalkEnds(f.Keys, prefix, k);
        return;
      }
      assert WholeEntry(f, k);
      BucketLength(n, q, k);
      BeforeSelf(f.Keys, k, prefix);
      ListsSnoc(f, ps, ks, WithPrefix(Before(f.Keys, k), prefix), k);
      ps, ks := ps + [PostingAt(f, k)], ks + [k];
      var found, next := Store.Next(f.Keys, k);
      if found {
        NextBefore(f.Keys, k, next);
        NotBelowNext(prefix, k, next);
        assert WithPrefix(Before(f.Keys, next), prefix) == WithPrefix(Before(f.Keys, k), prefix) + {k};
        k := next;
      } else {
        NoNext(f.Keys, k);
        assert WithPrefix(f.Keys, prefix) == WithPrefix(Before(f.Keys, k), prefix) + {k};
        valid := false;
      }
    }
  }

  lemma NotBelowNext(p: Key, k: Key, next: Key)
    requires !Less(k, p) && Less(k, next)
    ensures !Less(next, p)
  {
    if Less(next, p) { LessTransitive(k, next, p); }
  }

  lemma BeforeSelf(keys: set<Key>, k: Key, p: Key)
    ensures k !in WithPrefix(Before(keys, k), p)
  {
    LessIrreflexive(k);
  }

  lemma ListsNothing(f: Family)
    ensures Lists(f, [], [], {})
  {}

  lemma NothingFrom(keys: set<Key>, p: Key)
    requires forall j :: j in keys ==> Less(j, p)
    ensures WithPrefix(keys, p) == {}
  {
    forall j | j in keys && p <= j ensures false {
      NotBelowPrefix(p, j);
    }
  }

  ghost function BucketKeys(f: Family, q: Term, lo: nat, hi: nat): set<Key> {
    set k | k in f && InBuckets(q, lo, hi, k)
  }

  lemma BucketKeysSnoc(f: Family, q: Term, lo: nat, hi: nat)
    requires lo <= hi <= MAX_TERM_BYTES
    ensures BucketKeys(f, q, lo, hi + 1) == BucketKeys(f, q, lo, hi) + WithPrefix(f.Keys, Bucket(hi, q))
    ensures BucketKeys(f, q, lo, hi) !! WithPrefix(f.Keys, Bucket(hi, q))
  {
    hide Bucket;
    forall k | k in BucketKeys(f, q, lo, hi + 1)
      ensures k in BucketKeys(f, q, lo, hi) + WithPrefix(f.Keys, Bucket(hi, q))
    {
      var n :| lo <= n < hi + 1 && Bucket(n, q) <= k;
      assert n < hi ==> InBuckets(q, lo, hi, k);
    }
    forall k | k in BucketKeys(f, q, lo, hi) ensures !(Bucket(hi, q) <= k) && InBuckets(q, lo, hi + 1, k) {
      var n :| lo <= n < hi && Bucket(n, q) <= k;
      BucketLength(n, q, k);
      if Bucket(hi, q) <= k { BucketLength(hi, q, k); }
    }
    forall k | k in WithPrefix(f.Keys, Bucket(hi, q)) ensures InBuckets(q, lo, hi + 1, k) {}
  }

  /** ft_gather_postings */
  method GatherPostings(f: Family, qt: QueryTerm, maxWordLen: nat) returns (ps: seq<Posting>)
    requires WholeFamily(f)
    ensures Gathered(f, ps, RetrievedKeys(f, qt, maxWordLen))
  {
    hide Gathered, Bucket, Stored, WholeFamily;
    var q := Stored(qt.term);
    if !qt.trunc {
      ps := WalkBucket(f, |q|, q);
      assert RetrievedKeys(f, qt, maxWordLen) == WithPrefix(f.Keys, Bucket(|q|, q));
      return;
    }
    ps := [];
    GatheredNothing(f);
    var n := |q|;
    assert BucketKeys(f, q, |q|, n) == {};
    while n <= Reach(maxWordLen)
      invariant |q| <= n && (n <= Reach(maxWordLen) + 1 || n == |q|)
      invariant Gathered(f, ps, BucketKeys(f, q, |q|, n))
    {
      var more := WalkBucket(f, n, q);
      BucketKeysSnoc(f, q, |q|, n);
      GatheredConcat(f, ps, BucketKeys(f, q, |q|, n), more, WithPrefix(f.Keys, Bucket(n, q)));
      ps := ps + more;
      n := n + 1;
    }
    assert RetrievedKeys(f, qt, maxWordLen) == BucketKeys(f, q, |q|, n);
  }

  // ---- retrieval in terms of the documents ------------------------------------------------

  predicate KeysNotEmpty(docs: FullText.Docs) {
    forall pk :: pk in docs ==> pk != []
  }

  lemma ExactIsWhole(docs: FullText.Docs, f: Family)
    requires FullText.Exact(docs, f) && KeysNotEmpty(docs)
    ensures WholeFamily(f)
  {
    hide EntryKey;
    forall k | k in f ensures WholeEntry(f, k) {
      var pk, t :| pk in docs && t in docs[pk] && k == EntryKey(t, pk);
      EntryParts(t, pk);
      assert Holds(f, docs[pk], pk);
      ValueWidth(docs[pk], t);
    }
  }

  lemma ValueWidth(doc: Doc, t: Term)
    ensures |ValueIn(doc, t)| == VALUE_LEN
    ensures DecodeEntryValue(ValueIn(doc, t)) == (Count(doc, t) % TF_LIMIT, WordCount(doc))
  {
    EntryValueRoundTrip(Count(doc, t) % TF_LIMIT, WordCount(doc));
  }

  /** The posting of a matching term of some document. */
  ghost predicate IsPostingOf(docs: FullText.Docs, qt: QueryTerm, maxWordLen: nat, p: Posting) {
    && p.pk in docs && p.docLen == WordCount(docs[p.pk])
    && exists t :: t in docs[p.pk] && TermMatches(qt, maxWordLen, t) && p.tf == Count(docs[p.pk], t) % TF_LIMIT
  }

  /** What is gathered are the postings of the matching terms of the documents, and no others. */
  lemma GatheredAreMatches(docs: FullText.Docs, f: Family, qt: QueryTerm, maxWordLen: nat, ps: seq<Posting>)
    requires FullText.Exact(docs, f) && KeysNotEmpty(docs)
    requires Gathered(f, ps, RetrievedKeys(f, qt, maxWordLen))
    ensures forall pk, t :: pk in docs && t in docs[pk] && TermMatches(qt, maxWordLen, t) ==>
              Posting(pk, Count(docs[pk], t) % TF_LIMIT, WordCount(docs[pk])) in ps
    ensures forall i :: 0 <= i < |ps| ==> IsPostingOf(docs, qt, maxWordLen, ps[i])
  {
    hide EntryKey, TermMatches, Retrieved, ValueIn, Count, WordCount, WholeEntry, DecodeEntryValue;
    ExactIsWhole(docs, f);
    var ks :| Lists(f, ps, ks, RetrievedKeys(f, qt, maxWordLen));
    forall pk, t | pk in docs && t in docs[pk] && TermMatches(qt, maxWordLen, t)
      ensures Posting(pk, Count(docs[pk], t) % TF_LIMIT, WordCount(docs[pk])) in ps
    {
      var k := EntryKey(t, pk);
      RetrievedMatches(qt, maxWordLen, t, pk);
      PostingOfEntry(docs, f, pk, t);
      assert k in RetrievedKeys(f, qt, maxWordLen);
      var i :| 0 <= i < |ks| && ks[i] == k;
    }
    forall i | 0 <= i < |ps| ensures IsPostingOf(docs, qt, maxWordLen, ps[i]) {
      assert ks[i] in RetrievedKeys(f, qt, maxWordLen);
      var pk, t :| pk in docs && t in docs[pk] && ks[i] == EntryKey(t, pk);
      RetrievedMatches(qt, maxWordLen, t, pk);
      PostingOfEntry(docs, f, pk, t);
    }
  }

  lemma PostingOfEntry(docs: FullText.Docs, f: Family, pk: Key, t: Term)
    requires FullText.Exact(docs, f) && pk in docs && t in docs[pk] && WholeFamily(f)
    ensures EntryKey(t, pk) in f
    ensures PostingAt(f, EntryKey(t, pk)) == Posting(pk, Count(docs[pk], t) % TF_LIMIT, WordCount(docs[pk]))
  {
    hide EntryKey, ValueIn, DecodeEntryValue, Count, WordCount;
    assert Holds(f, docs[pk], pk);
    EntryParts(t, pk);
    ValueWidth(docs[pk], t);
  }

  // ---- scoring ----------------------------------------------------------------------------

  function CountIn(ps: seq<Posting>, pk: Key): nat {
    if ps == [] then 0 else CountIn(ps[..|ps| - 1], pk) + if ps[|ps| - 1].pk == pk then 1 else 0
  }

  predicate HasPk(k: Key, pk: Key) {
    |k| >= TERM_LEN_PREFIX && |k| >= TERM_LEN_PREFIX + StoredLength(k) && PkOf(k) == pk
  }

  ghost function KeysOfPk(keys: set<Key>, pk: Key): set<Key> {
    set k | k in keys && HasPk(k, pk)
  }

  lemma {:induction false} CountOfList(f: Family, ps: seq<Posting>, ks: seq<Key>, keys: set<Key>, pk: Key)
    requires Lists(f, ps, ks, keys)
    ensures CountIn(ps, pk) == |KeysOfPk(keys, pk)|
    decreases |ps|
  {
    hide HasPk;
    if ps == [] {
      assert KeysOfPk(keys, pk) == {};
    } else {
      var n := |ps| - 1;
      var k, rest := ks[n], keys - {ks[n]};
      ListsInit(f, ps, ks, keys);
      CountOfList(f, ps[..n], ks[..n], rest, pk);
      PkOfPosting(f, k, pk);
      assert k in keys;
      assert KeysOfPk(keys, pk) == if HasPk(k, pk) then KeysOfPk(rest, pk) + {k} else KeysOfPk(rest, pk);
    }
  }

  lemma PkOfPosting(f: Family, k: Key, pk: Key)
    requires k in f && WholeEntry(f, k)
    ensures HasPk(k, pk) <==> PostingAt(f, k).pk == pk
  {}

  lemma ListsInit(f: Family, ps: seq<Posting>, ks: seq<Key>, keys: set<Key>)
    requires Lists(f, ps, ks, keys) && ps != []
    ensures Lists(f, ps[..|ps| - 1], ks[..|ks| - 1], keys - {ks[|ks| - 1]})
  {
    hide WholeEntry, PostingAt;
    var n := |ks| - 1;
    forall k ensures k in ks[..n] <==> k in keys - {ks[n]} {
      assert k in ks <==> k in ks[..n] || k == ks[n];
    }
  }

  /** How often the term hits a document: once per matching entry. */
  ghost function Hits(f: Family, qt: QueryTerm, maxWordLen: nat, pk: Key): nat {
    |KeysOfPk(RetrievedKeys(f, qt, maxWordLen), pk)|
  }

  function NumRequired(terms: seq<QueryTerm>): nat {
    if terms == [] then 0
    else NumRequired(terms[..|terms| - 1]) + if terms[|terms| - 1].req.Required? then 1 else 0
  }

  ghost function RequiredHits(f: Family, terms: seq<QueryTerm>, maxWordLen: nat, pk: Key): nat {
    if terms == [] then 0
    else
      var qt := terms[|terms| - 1];
      RequiredHits(f, terms[..|terms| - 1], maxWordLen, pk) +
      if qt.req.Required? then Hits(f, qt, maxWordLen, pk) else 0
  }

  /** Some excluded, or some non-excluded, term hits the document. */
  ghost predicate Touched(f: Family, terms: seq<QueryTerm>, maxWordLen: nat, excluded: bool, pk: Key) {
    exists i :: 0 <= i < |terms| && terms[i].req.Excluded? == excluded && Hits(f, terms[i], maxWordLen, pk) > 0
  }

  /** What the scoring pass keeps, for any query. */
  ghost predicate Survives(f: Family, terms: seq<QueryTerm>, maxWordLen: nat, pk: Key) {
    && Touched(f, terms, maxWordLen, false, pk) && !Touched(f, terms, maxWordLen, true, pk)
    && (NumRequired(terms) > 0 ==> RequiredHits(f, terms, maxWordLen, pk) >= NumRequired(terms))
  }

  function HitsAt(hits: map<Key, nat>, pk: Key): nat {
    if pk in hits then hits[pk] else 0
  }

  /** The postings of one term go into the running maps. */
  method AddPostings(ps: seq<Posting>, req: Requirement, scored: set<Key>, hits: map<Key, nat>, excluded: set<Key>)
    returns (scored': set<Key>, hits': map<Key, nat>, excluded': set<Key>)
    ensures forall pk :: pk in excluded' <==> pk in excluded || (req.Excluded? && CountIn(ps, pk) > 0)
    ensures forall pk :: pk in scored' <==> pk in scored || (!req.Excluded? && CountIn(ps, pk) > 0)
    ensures forall pk :: HitsAt(hits', pk) == HitsAt(hits, pk) + if req.Required? then CountIn(ps, pk) else 0
  {
    scored', hits', excluded' := scored, hits, excluded;
    for i := 0 to |ps|
      invariant forall pk :: pk in excluded' <==> pk in excluded || (req.Excluded? && CountIn(ps[..i], pk) > 0)
      invariant forall pk :: pk in scored' <==> pk in scored || (!req.Excluded? && CountIn(ps[..i], pk) > 0)
      invariant forall pk :: HitsAt(hits', pk) == HitsAt(hits, pk) + if req.Required? then CountIn(ps[..i], pk) else 0
    {
      assert ps[..i + 1][..i] == ps[..i];
      var pk := ps[i].pk;
      if req.Excluded? {
        excluded' := excluded' + {pk};
      } else {
        scored' := scored' + {pk};
        if req.Required? {
          hits' := hits'[pk := HitsAt(hits', pk) + 1];
        }
      }
    }
    assert ps[..|ps|] == ps;
  }

  lemma TouchedSnoc(f: Family, terms: seq<QueryTerm>, maxWordLen: nat, i: nat, excluded: bool, pk: Key)
    requires i < |terms|
    ensures Touched(f, terms[..i + 1], maxWordLen, excluded, pk) <==>
              Touched(f, terms[..i], maxWordLen, excluded, pk) ||
              (terms[i].req.Excluded? == excluded && Hits(f, terms[i], maxWordLen, pk) > 0)
  {
    hide Hits;
    var a, b := terms[..i + 1], terms[..i];
    assert a[i] == terms[i] && forall j :: 0 <= j < i ==> a[j] == b[j];
  }

  /** ft_score_terms, up to the scores: which documents are left. */
  method ScoreTerms(f: Family, terms: seq<QueryTerm>, maxWordLen: nat) returns (docs: set<Key>, numRequired: nat)
    requires WholeFamily(f)
    ensures numRequired == NumRequired(terms)
    ensures forall pk :: pk in docs <==> Survives(f, terms, maxWordLen, pk)
  {
    hide Touched, Hits, Gathered, WholeFamily, CountIn;
    var hits: map<Key, nat> := map[];
    var excluded: set<Key> := {};
    docs, numRequired := {}, 0;
    TouchedNothing(f, maxWordLen);
    assert terms[..0] == [];
    for i := 0 to |terms|
      invariant numRequired == NumRequired(terms[..i])
      invariant forall pk :: pk in docs <==> Touched(f, terms[..i], maxWordLen, false, pk)
      invariant forall pk :: pk in excluded <==> Touched(f, terms[..i], maxWordLen, true, pk)
      invariant forall pk :: HitsAt(hits, pk) == RequiredHits(f, terms[..i], maxWordLen, pk)
    {
      var qt := terms[i];
      assert terms[..i + 1][..i] == terms[..i] && terms[..i + 1][i] == qt;
      if qt.req.Required? { numRequired := numRequired + 1; }
      var ps := GatherPostings(f, qt, maxWordLen);
      forall pk ensures CountIn(ps, pk) == Hits(f, qt, maxWordLen, pk) {
        CountIsHits(f, ps, qt, maxWordLen, pk);
      }
      docs, hits, excluded := AddPostings(ps, qt.req, docs, hits, excluded);
      forall pk
        ensures Touched(f, terms[..i + 1], maxWordLen, false, pk) <==> pk in docs
        ensures Touched(f, terms[..i + 1], maxWordLen, true, pk) <==> pk in excluded
      {
        TouchedSnoc(f, terms, maxWordLen, i, false, pk);
        TouchedSnoc(f, terms, maxWordLen, i, true, pk);
      }
    }
    assert terms[..|terms|] == terms;
    ghost var counted := hits;
    docs := docs - excluded;
    hits := hits - excluded;
    if numRequired > 0 {
      docs := DropIncomplete(docs, hits, numRequired);
    }
    forall pk ensures pk in docs <==> Survives(f, terms, maxWordLen, pk) {
      assert pk !in excluded ==> HitsAt(hits, pk) == HitsAt(counted, pk);
    }
  }

  lemma TouchedNothing(f: Family, maxWordLen: nat)
    ensures forall pk, b :: !Touched(f, [], maxWordLen, b, pk)
  {}

  lemma CountIsHits(f: Family, ps: seq<Posting>, qt: QueryTerm, maxWordLen: nat, pk: Key)
    requires Gathered(f, ps, RetrievedKeys(f, qt, maxWordLen))
    ensures CountIn(ps, pk) == Hits(f, qt, maxWordLen, pk)
  {
    hide Lists, RetrievedKeys, KeysOfPk, CountIn;
    var ks :| Lists(f, ps, ks, RetrievedKeys(f, qt, maxWordLen));
    CountOfList(f, ps, ks, RetrievedKeys(f, qt, maxWordLen), pk);
  }

  /** The erase loop of boolean mode. */
  method DropIncomplete(docs: set<Key>, hits: map<Key, nat>, numRequired: nat) returns (kept: set<Key>)
    ensures forall pk :: pk in kept <==> pk in docs && pk in hits && hits[pk] >= numRequired
  {
    kept := docs;
    var rest := docs;
    while rest != {}
      invariant rest <= kept <= docs
      invariant forall pk :: pk in docs && pk !in rest ==> (pk in kept <==> pk in hits && hits[pk] >= numRequired)
      decreases |rest|
    {
      var pk :| pk in rest;
      rest := rest - {pk};
      if pk !in hits || hits[pk] < numRequired {
        kept := kept - {pk};
      }
    }
  }

  // ---- what survives, in terms of the documents -------------------------------------------

  /** The document has a term the query term asks for. */
  predicate DocMatches(doc: Doc, qt: QueryTerm, maxWordLen: nat) {
    exists t :: t in doc && TermMatches(qt, maxWordLen, t)
  }

  lemma HitsIffMatches(docs: FullText.Docs, f: Family, qt: QueryTerm, maxWordLen: nat, pk: Key)
    requires FullText.Exact(docs, f)
    ensures Hits(f, qt, maxWordLen, pk) > 0 <==> pk in docs && DocMatches(docs[pk], qt, maxWordLen)
  {
    hide EntryKey, TermMatches, Retrieved, HasPk;
    var hit := KeysOfPk(RetrievedKeys(f, qt, maxWordLen), pk);
    if Hits(f, qt, maxWordLen, pk) > 0 {
      assert hit != {};
      var k :| k in hit;
      var p, t :| p in docs && t in docs[p] && k == EntryKey(t, p);
      RetrievedMatches(qt, maxWordLen, t, p);
      PkOfEntry(t, p, pk);
    }
    if pk in docs && DocMatches(docs[pk], qt, maxWordLen) {
      var t :| t in docs[pk] && TermMatches(qt, maxWordLen, t);
      RetrievedMatches(qt, maxWordLen, t, pk);
      PkOfEntry(t, pk, pk);
      assert EntryKey(t, pk) in FullText.AllKeys(docs);
      assert EntryKey(t, pk) in hit;
    }
  }

  lemma PkOfEntry(t: Term, p: Key, pk: Key)
    ensures HasPk(EntryKey(t, p), pk) <==> p == pk
  {
    hide EntryKey;
    EntryParts(t, p);
  }

  /** An exact term hits a document at most once. */
  lemma ExactHitsOnce(f: Family, qt: QueryTerm, maxWordLen: nat, pk: Key)
    requires !qt.trunc
    ensures Hits(f, qt, maxWordLen, pk) <= 1
  {
    hide LittleEndian, FromLittleEndian, Stored;
    var q := Stored(qt.term);
    var only := Bucket(|q|, q) + pk;
    var hit := KeysOfPk(RetrievedKeys(f, qt, maxWordLen), pk);
    forall k | k in hit ensures k == only {
      BucketLength(|q|, q, k);
      assert k == k[..2 + |q|] + k[2 + |q|..];
    }
    assert hit <= {only};
    if hit != {} {
      assert hit == {only};
    }
  }

  predicate RequiredExact(terms: seq<QueryTerm>) {
    forall i :: 0 <= i < |terms| && terms[i].req.Required? ==> !terms[i].trunc
  }

  ghost predicate AllRequiredHit(f: Family, terms: seq<QueryTerm>, maxWordLen: nat, pk: Key) {
    forall i :: 0 <= i < |terms| && terms[i].req.Required? ==> Hits(f, terms[i], maxWordLen, pk) > 0
  }

  lemma AllRequiredHitSnoc(f: Family, terms: seq<QueryTerm>, maxWordLen: nat, pk: Key)
    requires terms != []
    ensures var n := |terms| - 1;
      AllRequiredHit(f, terms, maxWordLen, pk) <==>
        && AllRequiredHit(f, terms[..n], maxWordLen, pk)
        && (terms[n].req.Required? ==> Hits(f, terms[n], maxWordLen, pk) > 0)
  {
    hide Hits;
    var n := |terms| - 1;
    assert forall i :: 0 <= i < n ==> terms[..n][i] == terms[i];
  }

  /** One hit for each required term is enough; it is needed when there is one such term, or all are exact. */
  lemma {:induction false} RequiredHitsCount(f: Family, terms: seq<QueryTerm>, maxWordLen: nat, pk: Key)
    ensures AllRequiredHit(f, terms, maxWordLen, pk) ==> RequiredHits(f, terms, maxWordLen, pk) >= NumRequired(terms)
    ensures NumRequired(terms) == 0 ==> RequiredHits(f, terms, maxWordLen, pk) == 0
    ensures NumRequired(terms) <= 1 && RequiredHits(f, terms, maxWordLen, pk) >= NumRequired(terms) ==>
      AllRequiredHit(f, terms, maxWordLen, pk)
    ensures RequiredExact(terms) ==> RequiredHits(f, terms, maxWordLen, pk) <= NumRequired(terms)
    ensures RequiredExact(terms) && RequiredHits(f, terms, maxWordLen, pk) == NumRequired(terms) ==>
      AllRequiredHit(f, terms, maxWordLen, pk)
    decreases |terms|
  {
    hide Hits, AllRequiredHit;
    if terms == [] {
      assert AllRequiredHit(f, terms, maxWordLen, pk) by { AllRequiredHitNone(f, maxWordLen, pk); }
    } else {
      var n := |terms| - 1;
      RequiredHitsCount(f, terms[..n], maxWordLen, pk);
      AllRequiredHitSnoc(f, terms, maxWordLen, pk);
      if terms[n].req.Required? && !terms[n].trunc {
        ExactHitsOnce(f, terms[n], maxWordLen, pk);
      }
    }
  }

  lemma AllRequiredHitNone(f: Family, maxWordLen: nat, pk: Key)
    ensures AllRequiredHit(f, [], maxWordLen, pk)
  {}

  /** Boolean mode as documented: every required term, no excluded term, some term that is not excluded. */
  ghost predicate Satisfies(docs: FullText.Docs, terms: seq<QueryTerm>, maxWordLen: nat, pk: Key) {
    && pk in docs
    && (forall qt :: qt in terms && qt.req.Required? ==> DocMatches(docs[pk], qt, maxWordLen))
    && (forall qt :: qt in terms && qt.req.Excluded? ==> !DocMatches(docs[pk], qt, maxWordLen))
    && (exists qt :: qt in terms && !qt.req.Excluded? && DocMatches(docs[pk], qt, maxWordLen))
  }

  /** Boolean mode in terms of hits. */
  lemma SatisfiesByHits(docs: FullText.Docs, f: Family, terms: seq<QueryTerm>, maxWordLen: nat, pk: Key)
    requires FullText.Exact(docs, f)
    ensures Satisfies(docs, terms, maxWordLen, pk) <==>
      && Touched(f, terms, maxWordLen, false, pk) && !Touched(f, terms, maxWordLen, true, pk)
      && AllRequiredHit(f, terms, maxWordLen, pk)
  {
    hide Hits, DocMatches, FullText.Exact;
    forall qt ensures Hits(f, qt, maxWordLen, pk) > 0 <==> pk in docs && DocMatches(docs[pk], qt, maxWordLen) {
      HitsIffMatches(docs, f, qt, maxWordLen, pk);
    }
    if Touched(f, terms, maxWordLen, false, pk) && !Touched(f, terms, maxWordLen, true, pk) &&
       AllRequiredHit(f, terms, maxWordLen, pk)
    {
      var i :| 0 <= i < |terms| && terms[i].req.Excluded? == false && Hits(f, terms[i], maxWordLen, pk) > 0;
      assert terms[i] in terms;
    }
    if Satisfies(docs, terms, maxWordLen, pk) {
      var qt :| qt in terms && !qt.req.Excluded? && DocMatches(docs[pk], qt, maxWordLen);
      var i :| 0 <= i < |terms| && terms[i] == qt;
      assert terms[i].req.Excluded? == false;
    }
  }

  /** No query loses a document that boolean mode asks for. */
  lemma SatisfiesSurvives(docs: FullText.Docs, f: Family, terms: seq<QueryTerm>, maxWordLen: nat, pk: Key)
    requires FullText.Exact(docs, f) && Satisfies(docs, terms, maxWordLen, pk)
    ensures Survives(f, terms, maxWordLen, pk)
  {
    hide Touched, AllRequiredHit, Satisfies, RequiredHits, FullText.Exact;
    SatisfiesByHits(docs, f, terms, maxWordLen, pk);
    RequiredHitsCount(f, terms, maxWordLen, pk);
  }

  /**
   For every query with at most one required term, or none that is truncated, the documents left are
   exactly the ones boolean mode asks for.
   */
  lemma SurvivesIffSatisfies(docs: FullText.Docs, f: Family, terms: seq<QueryTerm>, maxWordLen: nat, pk: Key)
    requires FullText.Exact(docs, f) && (NumRequired(terms) <= 1 || RequiredExact(terms))
    ensures Survives(f, terms, maxWordLen, pk) <==> Satisfies(docs, terms, maxWordLen, pk)
  {
    hide Touched, AllRequiredHit, Satisfies, RequiredHits, FullText.Exact, RequiredExact;
    SatisfiesByHits(docs, f, terms, maxWordLen, pk);
    RequiredHitsCount(f, terms, maxWordLen, pk);
  }

  // ---- the order of the terms -------------------------------------------------------------

  function Omit(terms: seq<QueryTerm>, i: nat): seq<QueryTerm>
    requires i < |terms|
  {
    terms[..i] + terms[i + 1..]
  }

  lemma OmitInit(terms: seq<QueryTerm>, i: nat)
    requires i < |terms|
    ensures var n, rest := |terms| - 1, Omit(terms, i);
      && |rest| == n && (i == n ==> rest == terms[..n])
      && (i < n ==> rest[..n - 1] == Omit(terms[..n], i) && rest[n - 1] == terms[n] && terms[..n][i] == terms[i])
  {}

  /** Taking a term out takes its share out. */
  lemma {:induction false} OmitShare(f: Family, terms: seq<QueryTerm>, maxWordLen: nat, pk: Key, i: nat)
    requires i < |terms|
    ensures NumRequired(terms) == NumRequired(Omit(terms, i)) + if terms[i].req.Required? then 1 else 0
    ensures RequiredHits(f, terms, maxWordLen, pk) == RequiredHits(f, Omit(terms, i), maxWordLen, pk) +
      if terms[i].req.Required? then Hits(f, terms[i], maxWordLen, pk) else 0
    decreases |terms|
  {
    hide Hits, Omit;
    OmitInit(terms, i);
    if i < |terms| - 1 {
      OmitShare(f, terms[..|terms| - 1], maxWordLen, pk, i);
    }
  }

  lemma SameRest(a: seq<QueryTerm>, b: seq<QueryTerm>, i: nat)
    requires multiset(a) == multiset(b) && a != [] && i < |b| && b[i] == a[|a| - 1]
    ensures multiset(a[..|a| - 1]) == multiset(Omit(b, i))
  {
    var n := |a| - 1;
    var x, y, e := multiset(a[..n]), multiset(Omit(b, i)), multiset{a[n]};
    assert a == a[..n] + [a[n]];
    assert b == b[..i] + [b[i]] + b[i + 1..];
    assert x + e == multiset(a) && y + e == multiset(b);
    assert x == (x + e) - e && y == (y + e) - e;
  }

  /** What is counted does not depend on the order. */
  lemma {:induction false} SameShares(f: Family, a: seq<QueryTerm>, b: seq<QueryTerm>, maxWordLen: nat, pk: Key)
    requires multiset(a) == multiset(b)
    ensures NumRequired(a) == NumRequired(b)
    ensures RequiredHits(f, a, maxWordLen, pk) == RequiredHits(f, b, maxWordLen, pk)
    decreases |a|
  {
    hide Hits;
    if a == [] {
      assert |multiset(b)| == 0;
    } else {
      var n := |a| - 1;
      assert a == a[..n] + [a[n]];
      assert a[n] in multiset(b);
      var i :| 0 <= i < |b| && b[i] == a[n];
      SameRest(a, b, i);
      SameShares(f, a[..n], Omit(b, i), maxWordLen, pk);
      OmitShare(f, b, maxWordLen, pk, i);
    }
  }

  lemma SameTouched(f: Family, a: seq<QueryTerm>, b: seq<QueryTerm>, maxWordLen: nat, excluded: bool, pk: Key)
    requires forall qt :: qt in a ==> qt in b
    ensures Touched(f, a, maxWordLen, excluded, pk) ==> Touched(f, b, maxWordLen, excluded, pk)
  {
    hide Hits;
    if Touched(f, a, maxWordLen, excluded, pk) {
      var i :| 0 <= i < |a| && a[i].req.Excluded? == excluded && Hits(f, a[i], maxWordLen, pk) > 0;
      assert a[i] in b;
      var j :| 0 <= j < |b| && b[j] == a[i];
    }
  }

  /** For every query and every index the order of the terms does not matter. */
  lemma OrderDoesNotMatter(f: Family, a: seq<QueryTerm>, b: seq<QueryTerm>, maxWordLen: nat, pk: Key)
    requires multiset(a) == multiset(b)
    ensures Survives(f, a, maxWordLen, pk) <==> Survives(f, b, maxWordLen, pk)
  {
    hide Hits, Touched;
    SameShares(f, a, b, maxWordLen, pk);
    forall qt ensures qt in a <==> qt in b {
      assert qt in multiset(a) <==> qt in multiset(b);
    }
    forall e ensures Touched(f, a, maxWordLen, e, pk) <==> Touched(f, b, maxWordLen, e, pk) {
      SameTouched(f, a, b, maxWordLen, e, pk);
      SameTouched(f, b, a, maxWordLen, e, pk);
    }
  }

  /** Nor does repeating a term, when the required terms are exact. */
  lemma RepetitionDoesNotMatter(docs: FullText.Docs, f: Family, a: seq<QueryTerm>, b: seq<QueryTerm>,
                                maxWordLen: nat, pk: Key)
    requires FullText.Exact(docs, f) && RequiredExact(a) && RequiredExact(b)
    requires forall qt :: qt in a <==> qt in b
    ensures Survives(f, a, maxWordLen, pk) <==> Survives(f, b, maxWordLen, pk)
  {
    hide Survives, FullText.Exact, DocMatches;
    SurvivesIffSatisfies(docs, f, a, maxWordLen, pk);
    SurvivesIffSatisfies(docs, f, b, maxWordLen, pk);
  }

  // ---- required terms that are truncated --------------------------------------------------

  /** The stored terms of the document that the query term asks for. */
  ghost function Matched(doc: Doc, qt: QueryTerm, maxWordLen: nat): set<Term> {
    set t | t in doc && TermMatches(qt, maxWordLen, t) :: Stored(t)
  }

  /** A term hits a document once for each of its stored terms that match. */
  lemma HitsAreMatched(docs: FullText.Docs, f: Family, qt: QueryTerm, maxWordLen: nat, pk: Key)
    requires FullText.Exact(docs, f) && pk in docs
    ensures Hits(f, qt, maxWordLen, pk) == |Matched(docs[pk], qt, maxWordLen)|
  {
    hide EntryKey, TermMatches, Stored, Retrieved, HasPk;
    var hit, terms := KeysOfPk(RetrievedKeys(f, qt, maxWordLen), pk), Matched(docs[pk], qt, maxWordLen);
    var keys := set s | s in terms :: EntryKey(s, pk);
    forall s | s in terms ensures EntryKey(s, pk) in hit {
      var t :| t in docs[pk] && TermMatches(qt, maxWordLen, t) && s == Stored(t);
      StoredTwice(t);
      EntryKeysClash(s, pk, t, pk);
      RetrievedMatches(qt, maxWordLen, t, pk);
      PkOfEntry(t, pk, pk);
      assert EntryKey(t, pk) in FullText.AllKeys(docs);
    }
    forall k | k in hit ensures k in keys {
      var p, t :| p in docs && t in docs[p] && k == EntryKey(t, p);
      PkOfEntry(t, p, pk);
      RetrievedMatches(qt, maxWordLen, t, p);
      StoredTwice(t);
      EntryKeysClash(Stored(t), pk, t, pk);
      assert Stored(t) in terms;
    }
    assert hit == keys;
    forall s, u | s in terms && u in terms && EntryKey(s, pk) == EntryKey(u, pk) ensures s == u {
      EntryKeysClash(s, pk, u, pk);
      var t :| t in docs[pk] && TermMatches(qt, maxWordLen, t) && s == Stored(t);
      var v :| v in docs[pk] && TermMatches(qt, maxWordLen, v) && u == Stored(v);
      StoredTwice(t);
      StoredTwice(v);
    }
    SameCount(terms, pk);
  }

  lemma StoredTwice(t: Term)
    ensures Stored(Stored(t)) == Stored(t)
  {}

  lemma {:induction false} SameCount(terms: set<Term>, pk: Key)
    requires forall s, u :: s in terms && u in terms && EntryKey(s, pk) == EntryKey(u, pk) ==> s == u
    ensures |set s | s in terms :: EntryKey(s, pk)| == |terms|
  {
    hide EntryKey;
    var keys := set s | s in terms :: EntryKey(s, pk);
    if terms == {} {
      assert keys == {};
    } else {
      var s :| s in terms;
      var rest := terms - {s};
      SameCount(rest, pk);
      assert keys == (set u | u in rest :: EntryKey(u, pk)) + {EntryKey(s, pk)};
    }
  }

  ghost function RequiredMatches(doc: Doc, terms: seq<QueryTerm>, maxWordLen: nat): nat {
    if terms == [] then 0
    else
      var qt := terms[|terms| - 1];
      RequiredMatches(doc, terms[..|terms| - 1], maxWordLen) +
      if qt.req.Required? then |Matched(doc, qt, maxWordLen)| else 0
  }

  lemma {:induction false} RequiredHitsAreMatches(docs: FullText.Docs, f: Family, terms: seq<QueryTerm>,
                                                  maxWordLen: nat, pk: Key)
    requires FullText.Exact(docs, f) && pk in docs
    ensures RequiredHits(f, terms, maxWordLen, pk) == RequiredMatches(docs[pk], terms, maxWordLen)
    decreases |terms|
  {
    hide Hits, Matched, FullText.Exact;
    if terms != [] {
      var n := |terms| - 1;
      RequiredHitsAreMatches(docs, f, terms[..n], maxWordLen, pk);
      HitsAreMatched(docs, f, terms[n], maxWordLen, pk);
    }
  }

  predicate Rejected(doc: Doc, terms: seq<QueryTerm>, maxWordLen: nat) {
    exists qt :: qt in terms && qt.req.Excluded? && DocMatches(doc, qt, maxWordLen)
  }

  predicate LacksRequired(doc: Doc, terms: seq<QueryTerm>, maxWordLen: nat) {
    exists qt :: qt in terms && qt.req.Required? && !DocMatches(doc, qt, maxWordLen)
  }

  /**
   A document is kept against boolean mode exactly when it lacks a required term, has no excluded one,
   and its other words match the required terms often enough to make up for it.
   */
  lemma KeptWronglyIff(docs: FullText.Docs, f: Family, terms: seq<QueryTerm>, maxWordLen: nat, pk: Key)
    requires FullText.Exact(docs, f) && pk in docs
    ensures Survives(f, terms, maxWordLen, pk) && !Satisfies(docs, terms, maxWordLen, pk) <==>
      && LacksRequired(docs[pk], terms, maxWordLen) && !Rejected(docs[pk], terms, maxWordLen)
      && RequiredMatches(docs[pk], terms, maxWordLen) >= NumRequired(terms)
  {
    hide Hits, DocMatches, FullText.Exact, RequiredHits, RequiredMatches, Touched, NumRequired;
    RequiredHitsAreMatches(docs, f, terms, maxWordLen, pk);
    SatisfiesByHits(docs, f, terms, maxWordLen, pk);
    TouchedByMatch(docs, f, terms, maxWordLen, pk);
    LacksIff(docs, f, terms, maxWordLen, pk);
    SomeRequired(f, terms, maxWordLen, pk);
  }

  lemma TouchedByMatch(docs: FullText.Docs, f: Family, terms: seq<QueryTerm>, maxWordLen: nat, pk: Key)
    requires FullText.Exact(docs, f) && pk in docs
    ensures Touched(f, terms, maxWordLen, true, pk) <==> Rejected(docs[pk], terms, maxWordLen)
  {
    hide Hits, DocMatches, FullText.Exact;
    forall qt ensures Hits(f, qt, maxWordLen, pk) > 0 <==> DocMatches(docs[pk], qt, maxWordLen) {
      HitsIffMatches(docs, f, qt, maxWordLen, pk);
    }
    if Rejected(docs[pk], terms, maxWordLen) {
      var qt :| qt in terms && qt.req.Excluded? && DocMatches(docs[pk], qt, maxWordLen);
      var i :| 0 <= i < |terms| && terms[i] == qt;
      assert terms[i].req.Excluded? == true;
    }
    if Touched(f, terms, maxWordLen, true, pk) {
      var i :| 0 <= i < |terms| && terms[i].req.Excluded? == true && Hits(f, terms[i], maxWordLen, pk) > 0;
      assert terms[i] in terms;
    }
  }

  lemma LacksIff(docs: FullText.Docs, f: Family, terms: seq<QueryTerm>, maxWordLen: nat, pk: Key)
    requires FullText.Exact(docs, f) && pk in docs
    ensures LacksRequired(docs[pk], terms, maxWordLen) <==> !AllRequiredHit(f, terms, maxWordLen, pk)
  {
    hide Hits, DocMatches, FullText.Exact;
    forall qt ensures Hits(f, qt, maxWordLen, pk) > 0 <==> DocMatches(docs[pk], qt, maxWordLen) {
      HitsIffMatches(docs, f, qt, maxWordLen, pk);
    }
    if !AllRequiredHit(f, terms, maxWordLen, pk) {
      var i :| 0 <= i < |terms| && terms[i].req.Required? && !(Hits(f, terms[i], maxWordLen, pk) > 0);
      assert terms[i] in terms;
    }
    if LacksRequired(docs[pk], terms, maxWordLen) {
      var qt :| qt in terms && qt.req.Required? && !DocMatches(docs[pk], qt, maxWordLen);
      var i :| 0 <= i < |terms| && terms[i] == qt;
    }
  }

  /** A missing required term makes the count positive, and a count that is met has a hit behind it. */
  lemma {:induction false} SomeRequired(f: Family, terms: seq<QueryTerm>, maxWordLen: nat, pk: Key)
    ensures !AllRequiredHit(f, terms, maxWordLen, pk) ==> NumRequired(terms) > 0
    ensures RequiredHits(f, terms, maxWordLen, pk) > 0 ==> Touched(f, terms, maxWordLen, false, pk)
    decreases |terms|
  {
    hide Hits, Touched;
    if terms != [] {
      var n := |terms| - 1;
      SomeRequired(f, terms[..n], maxWordLen, pk);
      AllRequiredHitSnoc(f, terms, maxWordLen, pk);
      assert terms[..n + 1] == terms;
      TouchedSnoc(f, terms, maxWordLen, n, false, pk);
    }
  }

  /**
   Any query with a required term whose matches in the document, as stored, are as many as the required
   terms: it keeps the document, although the document lacks another required term.
   */
  lemma TruncatedRequiredOvercounts(docs: FullText.Docs, f: Family, terms: seq<QueryTerm>, maxWordLen: nat, pk: Key,
                                    q: QueryTerm, r: QueryTerm)
    requires FullText.Exact(docs, f) && pk in docs && !Rejected(docs[pk], terms, maxWordLen)
    requires q in terms && q.req.Required? && |Matched(docs[pk], q, maxWordLen)| >= NumRequired(terms)
    requires r in terms && r.req.Required? && !DocMatches(docs[pk], r, maxWordLen)
    ensures Survives(f, terms, maxWordLen, pk) && !Satisfies(docs, terms, maxWordLen, pk)
  {
    hide Matched, FullText.Exact, Survives, Satisfies, DocMatches, Rejected, NumRequired, RequiredMatches;
    assert LacksRequired(docs[pk], terms, maxWordLen);
    OneShare(docs[pk], terms, maxWordLen, q);
    KeptWronglyIff(docs, f, terms, maxWordLen, pk);
  }

  lemma {:induction false} OneShare(doc: Doc, terms: seq<QueryTerm>, maxWordLen: nat, q: QueryTerm)
    requires q in terms && q.req.Required?
    ensures RequiredMatches(doc, terms, maxWordLen) >= |Matched(doc, q, maxWordLen)|
    decreases |terms|
  {
    hide Matched;
    var n := |terms| - 1;
    if terms[n] != q {
      assert q in terms[..n];
      OneShare(doc, terms[..n], maxWordLen, q);
    }
  }

  /** For one, `+a* +b` keeps a document with two words in `a` and none that is `b`. */
  lemma TwoWordsForOne(docs: FullText.Docs, f: Family, pk: Key)
    requires FullText.Exact(docs, f) && pk in docs && docs[pk] == [[97, 97], [97, 98]]
    ensures var terms := [QueryTerm([97], true, Required), QueryTerm([98], false, Required)];
            Survives(f, terms, 84, pk) && !Satisfies(docs, terms, 84, pk)
  {
    hide FullText.Exact, Survives, Satisfies;
    var a, b := QueryTerm([97], true, Required), QueryTerm([98], false, Required);
    var x, y: Term := [97, 97], [97, 98];
    assert Matched(docs[pk], a, 84) == {x, y} by {
      assert Stored(x) == x && Stored(y) == y && docs[pk][0] == x && docs[pk][1] == y;
      assert TermMatches(a, 84, x) && TermMatches(a, 84, y);
    }
    assert [a, b][..1] == [a] && [a][..0] == [];
    assert NumRequired([a]) == 1 && NumRequired([a, b]) == 2;
    assert [a, b][0] == a && [a, b][1] == b;
    TruncatedRequiredOvercounts(docs, f, [a, b], 84, pk, a, b);
  }
}
