/**
 Deferred DDL, the state and what each single write does to it: a statement records what it wants done
 to a table's column families, the server commits or rolls back, and the post-DDL hook or the recovery
 pass of a later run carries the outcome out.

 The disk holds the server's dictionary, the column families by name, and the log; a crash keeps the disk
 and loses the memory, after any single write. Every path belongs to at most one statement at a time,
 which is what the server's metadata locks provide.
 */
module DdlLog {
  import opened Bytes
  import opened CfNames
  import opened DdlLogRecord
  import opened Optional

  type Key = seq<byte>
  type Log = map<Key, seq<byte>>

  /** dictionary: the tables the server has, with the names of their keys. */
  datatype Disk = Disk(dictionary: map<Path, seq<Name>>, families: set<Name>, log: Log)

  datatype Phase = Running | Ended(committed: bool)

  /** What a statement wants, until its hook has run. noted: it could write its record. */
  datatype Claim = Claim(session: nat, key: Key, rec: Record, keys: seq<Name>, noted: bool, phase: Phase)

  datatype Memory = Memory(boot: nat, sequence: nat, recovered: bool, claims: map<Path, Claim>)

  // ---- the invariant ----------------------------------------------------------------------

  /** The log entry under k is a pending drop of path p. */
  predicate IsDrop(log: Log, k: Key, p: Path) {
    && k in log && DecodeRecord(log[k]).Some?
    && DecodeRecord(log[k]).value.what.Drop? && DecodeRecord(log[k]).value.path == p
  }

  ghost predicate DropPending(log: Log, p: Path) {
    exists k :: k in log && IsDrop(log, k, p)
  }

  predicate KeyOfRun(k: Key, boot: nat, sequence: nat) {
    |k| == KEY_LEN && (FromBigEndian(k[..8]) == boot ==> FromBigEndian(k[8..]) < sequence)
  }

  /** What a claim says about the log and the dictionary. */
  predicate ClaimPhase(d: Disk, p: Path, c: Claim) {
    match c.phase
    case Ended(true) =>
      && (c.noted ==> c.key in d.log && EncodeRecord(c.rec) == Some(d.log[c.key]))
      && (!c.noted ==> c.key !in d.log)
      && (c.rec.what.Create? <==> p in d.dictionary)
    case _ => c.key !in d.log && (c.rec.what.Drop? <==> p in d.dictionary)
  }

  predicate ClaimKey(m: Memory, p: Path, c: Claim) {
    && c.rec.path == p && p != [] && Encodable(c.rec) && (c.rec.what.Drop? ==> c.noted)
    && KeyOfRun(c.key, m.boot, m.sequence) && FromBigEndian(c.key[..8]) == m.boot
  }

  predicate ClaimHolds(d: Disk, m: Memory, p: Path, c: Claim) {
    ClaimKey(m, p, c) && ClaimPhase(d, p, c)
  }

  predicate ClaimsHold(d: Disk, m: Memory) {
    && (forall p :: p in m.claims ==> ClaimHolds(d, m, p, m.claims[p]))
    && (forall p, q :: p in m.claims && q in m.claims && p != q ==> m.claims[p].key != m.claims[q].key)
  }

  /** A reason for families of the path: the table exists, is to be dropped, is being created, or was lost. */
  ghost predicate Keeper(d: Disk, m: Memory, lost: set<Path>, p: Path) {
    || p in d.dictionary
    || DropPending(d.log, p)
    || (p in m.claims && m.claims[p].rec.what.Create?)
    || p in lost
  }

  /** A family is there for a reason. */
  ghost predicate Accounted(d: Disk, m: Memory, lost: set<Path>, n: Name) {
    exists p :: Matches(p, n) && Keeper(d, m, lost, p)
  }

  ghost predicate AllAccounted(d: Disk, m: Memory, lost: set<Path>) {
    forall n :: n in d.families ==> Accounted(d, m, lost, n)
  }

  /** lost: the paths whose families nothing refers to any more. */
  ghost predicate Inv(d: Disk, m: Memory, lost: set<Path>) {
    && m.boot < UINT64_LIMIT && ClaimsHold(d, m) && AllAccounted(d, m, lost)
    && (forall k :: k in d.log ==> KeyOfRun(k, m.boot, m.sequence))
    && (forall p :: p in lost ==> p !in d.dictionary && p !in m.claims)
  }

  /** Nothing stops being a reason. */
  lemma StaysAccounted(d: Disk, m: Memory, lost: set<Path>, d': Disk, m': Memory, lost': set<Path>)
    requires AllAccounted(d, m, lost) && d'.families <= d.families
    requires forall p :: Keeper(d, m, lost, p) ==> Keeper(d', m', lost', p)
    ensures AllAccounted(d', m', lost')
  {
    hide Keeper, Matches;
  }

  /** One path stops being a reason, and has no families. */
  lemma AccountedWithout(d: Disk, m: Memory, lost: set<Path>, d': Disk, m': Memory, lost': set<Path>, p: Path)
    requires AllAccounted(d, m, lost) && d'.families <= d.families
    requires forall q :: q != p && Keeper(d, m, lost, q) ==> Keeper(d', m', lost', q)
    requires Keeper(d', m', lost', p) || !Left(d', p)
    ensures AllAccounted(d', m', lost')
  {
    hide Keeper, Matches;
    forall n | n in d'.families ensures Accounted(d', m', lost', n) {
      assert Accounted(d, m, lost, n);
      var q :| Matches(q, n) && Keeper(d, m, lost, q);
      assert Keeper(d', m', lost', q);
    }
  }

  // ---- removing families and records ------------------------------------------------------

  /** Only families a removal of the path takes are gone. */
  ghost predicate OnlyTaken(d: Disk, d': Disk, p: Path) {
    && d'.dictionary == d.dictionary && d'.log == d.log && d'.families <= d.families
    && forall n :: n in d.families && !Matches(p, n) ==> n in d'.families
  }

  lemma RemovalKeepsInv(d: Disk, d': Disk, m: Memory, lost: set<Path>)
    requires Inv(d, m, lost) && d'.dictionary == d.dictionary && d'.log == d.log && d'.families <= d.families
    ensures Inv(d', m, lost)
  {
    hide DropPending, DecodeRecord, EncodeRecord, KeyOfRun, ClaimKey, AllAccounted;
    StaysAccounted(d, m, lost, d', m, lost);
  }

  function Erased(d: Disk, k: Key): Disk {
    d.(log := d.log - {k})
  }

  lemma DropPendingAfterErase(d: Disk, k: Key, p: Path)
    ensures forall j :: IsDrop(Erased(d, k).log, j, p) <==> j != k && IsDrop(d.log, j, p)
    ensures DropPending(Erased(d, k).log, p) ==> DropPending(d.log, p)
    ensures !IsDrop(d.log, k, p) ==> (DropPending(Erased(d, k).log, p) <==> DropPending(d.log, p))
  {
    hide DecodeRecord;
    var log' := Erased(d, k).log;
    if DropPending(d.log, p) && !IsDrop(d.log, k, p) {
      var j :| j in d.log && IsDrop(d.log, j, p);
      assert IsDrop(log', j, p);
    }
  }

  ghost predicate Left(d: Disk, p: Path) {
    exists n :: n in d.families && Matches(p, n)
  }

  /** A record is erased: allowed when no claim needs it and a drop leaves nothing, or another reason. */
  lemma EraseKeepsInv(d: Disk, m: Memory, lost: set<Path>, k: Key, p: Path)
    requires Inv(d, m, lost)
    requires forall q :: q in m.claims ==> m.claims[q].key != k
    requires forall q :: IsDrop(d.log, k, q) ==> q == p
    requires IsDrop(d.log, k, p) ==> Keeper(Erased(d, k), m, lost, p) || !Left(d, p)
    ensures Inv(Erased(d, k), m, lost)
  {
    hide DropPending, DecodeRecord, EncodeRecord, KeyOfRun, IsDrop, ClaimKey, Left, AllAccounted;
    var d' := Erased(d, k);
    forall q | q in m.claims ensures ClaimHolds(d', m, q, m.claims[q]) {
      assert ClaimHolds(d, m, q, m.claims[q]);
    }
    forall q ensures (q != p || !IsDrop(d.log, k, p)) && Keeper(d, m, lost, q) ==> Keeper(d', m, lost, q) {
      DropPendingAfterErase(d, k, q);
    }
    SameLeft(d, d', p);
    if IsDrop(d.log, k, p) {
      AccountedWithout(d, m, lost, d', m, lost, p);
    } else {
      StaysAccounted(d, m, lost, d', m, lost);
    }
  }

  lemma SameLeft(d: Disk, d': Disk, p: Path)
    requires d'.families == d.families
    ensures Left(d', p) <==> Left(d, p)
  {}

  /** A path nothing refers to is counted as lost. */
  lemma LosingKeepsInv(d: Disk, m: Memory, lost: set<Path>, p: Path)
    requires Inv(d, m, lost) && p !in d.dictionary && p !in m.claims
    ensures Inv(d, m, lost + {p})
  {
    hide DropPending, KeyOfRun, ClaimsHold, AllAccounted;
    StaysAccounted(d, m, lost, d, m, lost + {p});
  }

  /** A claim is done with; what is left of a create that did not happen becomes lost. */
  lemma ReleaseKeepsInv(d: Disk, m: Memory, lost: set<Path>, p: Path, losing: bool)
    requires Inv(d, m, lost) && p in m.claims && m.claims[p].phase.Ended?
    requires losing ==> p !in d.dictionary
    requires m.claims[p].rec.what.Create? && !m.claims[p].phase.committed ==> losing || !Left(d, p)
    ensures Inv(d, m.(claims := m.claims - {p}), if losing then lost + {p} else lost)
  {
    hide DropPending, KeyOfRun, EncodeRecord, AllAccounted, Left;
    var m' := m.(claims := m.claims - {p});
    var lost' := if losing then lost + {p} else lost;
    assert ClaimHolds(d, m, p, m.claims[p]);
    forall q | q in m'.claims ensures ClaimHolds(d, m', q, m'.claims[q]) {
      assert ClaimHolds(d, m, q, m.claims[q]);
    }
    if m.claims[p].rec.what.Create? && !m.claims[p].phase.committed {
      AccountedWithout(d, m, lost, d, m', lost', p);
    } else {
      StaysAccounted(d, m, lost, d, m', lost');
    }
  }

  // ---- statements -------------------------------------------------------------------------

  function NextKey(m: Memory): Key {
    EncodeKey(m.boot, m.sequence)
  }

  lemma NextKeyParts(m: Memory)
    requires m.boot < UINT64_LIMIT && m.sequence < UINT64_LIMIT
    ensures |NextKey(m)| == KEY_LEN
    ensures FromBigEndian(NextKey(m)[..8]) == m.boot && FromBigEndian(NextKey(m)[8..]) == m.sequence
  {
    hide BigEndian, FromBigEndian;
    ConcreteWidths();
    BigEndianRoundTrip(m.boot, 8);
    BigEndianRoundTrip(m.sequence, 8);
    var k := NextKey(m);
    assert k[..8] == BigEndian(m.boot, 8) && k[8..] == BigEndian(m.sequence, 8);
  }

  lemma NextKeyIsNew(d: Disk, m: Memory, lost: set<Path>)
    requires Inv(d, m, lost) && m.sequence < UINT64_LIMIT
    ensures NextKey(m) !in d.log && forall p :: p in m.claims ==> m.claims[p].key != NextKey(m)
    ensures KeyOfRun(NextKey(m), m.boot, m.sequence + 1) && FromBigEndian(NextKey(m)[..8]) == m.boot
  {
    hide FromBigEndian, NextKey, AllAccounted, ClaimPhase;
    NextKeyParts(m);
    var k := NextKey(m);
    forall p | p in m.claims ensures m.claims[p].key != k {
      assert ClaimHolds(d, m, p, m.claims[p]);
    }
  }

  function Recorded(m: Memory, c: Claim): Memory {
    m.(sequence := m.sequence + 1, claims := m.claims[c.rec.path := c])
  }

  lemma RecordKeepsInv(d: Disk, m: Memory, lost: set<Path>, c: Claim)
    requires Inv(d, m, lost) && m.sequence < UINT64_LIMIT && c.rec.path !in m.claims
    requires c.key == NextKey(m) && c.phase == Running && Encodable(c.rec) && c.rec.path != []
    requires (c.rec.what.Drop? <==> c.rec.path in d.dictionary) && (c.rec.what.Drop? ==> c.noted)
    ensures Inv(d, Recorded(m, c), lost - {c.rec.path})
  {
    hide DropPending, EncodeRecord, FromBigEndian, AllAccounted, NextKey, Encodable;
    NextKeyIsNew(d, m, lost);
    var m', lost' := Recorded(m, c), lost - {c.rec.path};
    forall q | q in m'.claims ensures ClaimHolds(d, m', q, m'.claims[q]) {
      assert q != c.rec.path ==> ClaimHolds(d, m, q, m.claims[q]);
    }
    StaysAccounted(d, m, lost, d, m', lost');
  }

  /** The statement's transaction commits: its record and the dictionary change together. */
  function CommitOne(d: Disk, p: Path, c: Claim): Disk
    requires Encodable(c.rec)
  {
    d.(dictionary := if c.rec.what.Drop? then d.dictionary - {p} else d.dictionary[p := c.keys],
       log := if c.noted then d.log[c.key := EncodeRecord(c.rec).value] else d.log)
  }

  function EndOne(m: Memory, p: Path, committed: bool): Memory
    requires p in m.claims
  {
    m.(claims := m.claims[p := m.claims[p].(phase := Ended(committed))])
  }

  lemma EncodeSome(r: Record)
    requires Encodable(r)
    ensures EncodeRecord(r).Some?
  {}

  lemma NewRecord(log: Log, c: Claim)
    requires Encodable(c.rec) && c.rec.path != [] && c.key !in log
    ensures var log' := log[c.key := EncodeRecord(c.rec).value];
      && (forall k, q :: IsDrop(log', k, q) <==>
            IsDrop(log, k, q) || (k == c.key && c.rec.what.Drop? && q == c.rec.path))
      && (forall q :: DropPending(log', q) <==> DropPending(log, q) || (c.rec.what.Drop? && q == c.rec.path))
  {
    hide DecodeRecord, EncodeRecord;
    EncodeSome(c.rec);
    var v := EncodeRecord(c.rec).value;
    var log' := log[c.key := v];
    assert v + [] == v;
    DecodeOfEncoded(c.rec, []);
    forall q ensures DropPending(log', q) <==> DropPending(log, q) || (c.rec.what.Drop? && q == c.rec.path) {
      if DropPending(log, q) {
        var k :| k in log && IsDrop(log, k, q);
        assert IsDrop(log', k, q);
      }
      if DropPending(log', q) {
        var k :| k in log' && IsDrop(log', k, q);
        assert k != c.key ==> IsDrop(log, k, q);
      }
      if c.rec.what.Drop? && q == c.rec.path {
        assert IsDrop(log', c.key, q);
      }
    }
  }

  lemma NoDrop(log: Log, p: Path)
    ensures DropPending(log, p) <==> exists k :: IsDrop(log, k, p)
  {}

  lemma CommittedClaim(d: Disk, m: Memory, p: Path, q: Path)
    requires ClaimsHold(d, m) && p in m.claims && q in m.claims && m.claims[p].phase == Running
    requires Encodable(m.claims[p].rec)
    ensures ClaimHolds(CommitOne(d, p, m.claims[p]), EndOne(m, p, true), q, EndOne(m, p, true).claims[q])
  {
    hide EncodeRecord, KeyOfRun;
    assert ClaimHolds(d, m, p, m.claims[p]) && ClaimHolds(d, m, q, m.claims[q]);
    EncodeSome(m.claims[p].rec);
  }

  lemma CommitKeepsInv(d: Disk, m: Memory, lost: set<Path>, p: Path)
    requires Inv(d, m, lost) && p in m.claims && m.claims[p].phase == Running
    ensures Encodable(m.claims[p].rec) && Inv(CommitOne(d, p, m.claims[p]), EndOne(m, p, true), lost)
  {
    hide DropPending, DecodeRecord, EncodeRecord, IsDrop, KeyOfRun, AllAccounted, Encodable;
    var c := m.claims[p];
    assert ClaimHolds(d, m, p, c);
    EncodeSome(c.rec);
    NewRecord(d.log, c);
    var d', m' := CommitOne(d, p, c), EndOne(m, p, true);
    forall q | q in m'.claims ensures ClaimHolds(d', m', q, m'.claims[q]) {
      CommittedClaim(d, m, p, q);
    }
    forall q ensures Keeper(d, m, lost, q) ==> Keeper(d', m', lost, q) {}
    StaysAccounted(d, m, lost, d', m', lost);
  }

  lemma RollbackKeepsInv(d: Disk, m: Memory, lost: set<Path>, p: Path)
    requires Inv(d, m, lost) && p in m.claims && m.claims[p].phase == Running
    ensures Inv(d, EndOne(m, p, false), lost)
  {
    hide DropPending, EncodeRecord, KeyOfRun, AllAccounted;
    var m' := EndOne(m, p, false);
    forall q | q in m'.claims ensures ClaimHolds(d, m', q, m'.claims[q]) {
      assert ClaimHolds(d, m, q, m.claims[q]);
    }
    StaysAccounted(d, m, lost, d, m', lost);
  }

  /** Paths a crash leaves without a record: creates that have not committed. */
  function Unrecorded(m: Memory): set<Path> {
    set p | p in m.claims && m.claims[p].rec.what.Create? && m.claims[p].phase != Ended(true)
  }

  predicate UnusedBoot(log: Log, boot: nat) {
    boot < UINT64_LIMIT && forall k :: k in log ==> |k| == KEY_LEN && FromBigEndian(k[..8]) != boot
  }

  lemma CrashKeepsInv(d: Disk, m: Memory, lost: set<Path>, boot: nat)
    requires Inv(d, m, lost) && UnusedBoot(d.log, boot)
    ensures Inv(d, Memory(boot, 0, false, map[]), lost + Unrecorded(m))
  {
    hide DropPending, EncodeRecord, AllAccounted, FromBigEndian;
    var m', lost' := Memory(boot, 0, false, map[]), lost + Unrecorded(m);
    forall p | p in m.claims ensures ClaimHolds(d, m, p, m.claims[p]) {}
    StaysAccounted(d, m, lost, d, m', lost');
  }

  /** One more family of a path that counts as lost until its create is recorded. */
  lemma CreatedKeepsInv(d: Disk, m: Memory, lost: set<Path>, p: Path, n: Name)
    requires Inv(d, m, lost) && p in lost && Matches(p, n)
    ensures Inv(d.(families := d.families + {n}), m, lost)
  {
    hide DropPending, EncodeRecord, KeyOfRun, Matches;
    var d' := d.(families := d.families + {n});
    forall q | q in m.claims ensures ClaimHolds(d', m, q, m.claims[q]) {
      assert ClaimHolds(d, m, q, m.claims[q]);
    }
    forall o | o in d'.families ensures Accounted(d', m, lost, o) {
      if o in d.families {
        assert Accounted(d, m, lost, o);
        var q :| Matches(q, o) && Keeper(d, m, lost, q);
        assert Keeper(d', m, lost, q);
      } else {
        assert Matches(p, o) && Keeper(d', m, lost, p);
      }
    }
  }

  lemma RecoveredFlag(d: Disk, m: Memory, lost: set<Path>)
    requires Inv(d, m, lost)
    ensures Inv(d, m.(recovered := true), lost)
  {
    hide DropPending, EncodeRecord, AllAccounted, ClaimPhase, FromBigEndian;
    var m' := m.(recovered := true);
    forall p | p in m'.claims ensures ClaimHolds(d, m', p, m'.claims[p]) {
      assert ClaimHolds(d, m, p, m.claims[p]);
    }
    StaysAccounted(d, m, lost, d, m', lost);
  }

  // ---- records of earlier runs ------------------------------------------------------------

  /** A readable record of another run. */
  predicate Earlier(log: Log, boot: nat, k: Key) {
    k in log && |k| == KEY_LEN && FromBigEndian(k[..8]) != boot && DecodeRecord(log[k]).Some?
  }

  lemma EarlierIsUnclaimed(d: Disk, m: Memory, lost: set<Path>, k: Key)
    requires Inv(d, m, lost) && |k| == KEY_LEN && FromBigEndian(k[..8]) != m.boot
    ensures forall p :: p in m.claims ==> m.claims[p].key != k
  {
    hide EncodeRecord, AllAccounted, ClaimPhase, FromBigEndian;
    forall p | p in m.claims ensures m.claims[p].key != k {
      assert ClaimHolds(d, m, p, m.claims[p]);
    }
  }

  /** A path some other claim holds has a reason beside the record of an earlier run. */
  lemma ClaimedIsKept(d: Disk, m: Memory, lost: set<Path>, k: Key, p: Path)
    requires Inv(d, m, lost) && p in m.claims && m.claims[p].key != k && IsDrop(d.log, k, p)
    ensures Keeper(Erased(d, k), m, lost, p)
  {
    hide DecodeRecord, EncodeRecord, KeyOfRun, IsDrop, DropPending, AllAccounted;
    var c := m.claims[p];
    assert ClaimHolds(d, m, p, c);
    if c.rec.what.Drop? && c.phase == Ended(true) {
      OwnDrop(d, p, c);
      DropPendingAfterErase(d, k, p);
      assert IsDrop(Erased(d, k).log, c.key, p);
      NoDrop(Erased(d, k).log, p);
    }
  }

  /** The record of a committed statement says what the statement wanted. */
  lemma OwnDrop(d: Disk, p: Path, c: Claim)
    requires c.rec.path == p && p != [] && Encodable(c.rec) && ClaimPhase(d, p, c) && c.phase == Ended(true) && c.noted
    ensures forall q :: IsDrop(d.log, c.key, q) <==> c.rec.what.Drop? && q == p
  {
    hide DecodeRecord, EncodeRecord;
    EncodeSome(c.rec);
    var v := EncodeRecord(c.rec).value;
    assert v + [] == v;
    DecodeOfEncoded(c.rec, []);
  }
}
