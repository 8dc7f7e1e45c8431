/**
 Deferred DDL, runs that end badly: a table created over a pending drop of its path, a table named like
 the index of another, and a create that stops with an error.
 */
module DdlCases {
  import opened Bytes
  import opened CfNames
  import opened DdlEngine
  import opened DdlFollows
  import opened DdlLog
  import opened DdlLogRecord
  import opened DdlServer
  import opened Optional

  // ---- one statement, its commit and its hook ---------------------------------------------

  lemma OneCommitted(dictionary: map<Path, seq<Name>>, session: nat, c: Claim)
    requires c.session == session && c.phase == Running
    ensures var claims := map[c.rec.path := c];
      && MyClaims(claims, session) == {c.rec.path}
      && Committed(dictionary, Open(claims), {c.rec.path}) ==
         if c.rec.what.Create? then dictionary[c.rec.path := c.keys] else dictionary - {c.rec.path}
  {}

  /** Nothing on record is of an earlier run. */
  ghost predicate OwnRun(log: Log, boot: nat) {
    forall k :: k in log ==> |k| == KEY_LEN && BootOf(k) == boot
  }

  lemma OwnRunHasNoEarlier(log: Log, boot: nat)
    requires OwnRun(log, boot)
    ensures EarlierDrops(log, boot) == {}
  {
    hide FromBigEndian, DecodeRecord;
  }

  /** The hook of one committed statement: what it takes is what the statement's drop asks for. */
  lemma OneHooked(d: Disk, m: Memory, lost: set<Path>, session: nat, c: Claim, d': Disk, lost': set<Path>)
    requires m.claims == map[c.rec.path := c] && c.session == session && c.phase == Ended(true) && c.noted
    requires WholeEffect(d, m, session, lost, {}, d', lost') && HooksDone(m.claims, session, {}, d'.families)
    requires m.recovered || OwnRun(d.log, m.boot)
    ensures d'.dictionary == d.dictionary
    ensures d'.families == if c.rec.what.Drop? then Without(d.families, {}, c.rec.path) else d.families
  {
    hide Matches, FromBigEndian, DecodeRecord, EarlierDrops;
    if !m.recovered { OwnRunHasNoEarlier(d.log, m.boot); }
    var p := c.rec.path;
    assert Doing(Open(m.claims), session) == if c.rec.what.Drop? then {p} else {};
    assert c.rec.what.Drop? ==> Hooks(m.claims, session, p) && Undone(m.claims[p]);
  }

  method CreateAlone(e: Engine, session: nat, rec: Record, keys: seq<Name>)
    requires e.Valid() && e.mem.claims == map[] && e.mem.sequence < UINT64_LIMIT && OwnRun(e.disk.log, e.mem.boot)
    requires Sound(rec, Intent.Create) && rec.path !in e.disk.dictionary
    modifies e
    ensures e.Valid() && e.mem.claims == map[] && e.mem.boot == old(e.mem).boot && OwnRun(e.disk.log, e.mem.boot)
    ensures e.mem.recovered && e.mem.sequence == old(e.mem).sequence + 1
    ensures e.disk.dictionary == old(e.disk).dictionary[rec.path := keys]
    ensures old(e.disk).families <= e.disk.families && Whole(e.disk.families, rec.path, keys)
  {
    hide Inv, IsDrop, Recovered, Committed, Open, NextKey, SplitPath, WholeEffect, HooksDone, BootOf, FamilyNames,
         RecordsErased;
    ghost var c := Claim(session, NextKey(e.mem), rec, keys, true, Running);
    var r := e.CreateTable(session, rec, keys, Succeeds);
    assert e.mem.claims == map[rec.path := c];
    OneCommitted(e.disk.dictionary, session, c);
    e.Commit(session);
    ghost var d, m, x := e.disk, e.mem, e.lost;
    var cut := e.PostDdl(session, {}, Steady);
    OneHooked(d, m, x, session, c.(phase := Ended(true)), e.disk, e.lost);
    EffectLog(d, m, session, x, {}, e.disk, e.lost);
    assert e.mem.claims == map[];
  }

  lemma EffectLog(d: Disk, m: Memory, session: nat, lost: set<Path>, refused: set<Name>, d': Disk, lost': set<Path>)
    requires WholeEffect(d, m, session, lost, refused, d', lost')
    ensures SubLog(d'.log, d.log)
  {}

  // ---- names in each other's way ----------------------------------------------------------

  /**
   A drop with its commit and its hook leaves exactly the families its name does not take, so another
   table keeps its storage exactly when the dropped table does not cross it.
   */
  method DropAlone(e: Engine, session: nat, rec: Record)
    requires e.Valid() && e.mem.claims == map[] && e.mem.sequence < UINT64_LIMIT && e.mem.recovered
    requires Sound(rec, Intent.Drop) && rec.path in e.disk.dictionary
    modifies e
    ensures e.Valid() && e.disk.dictionary == old(e.disk).dictionary - {rec.path}
    ensures e.disk.families == Without(old(e.disk).families, {}, rec.path)
    ensures forall q :: q in e.disk.dictionary && Whole(old(e.disk).families, q, e.disk.dictionary[q]) ==>
      (Whole(e.disk.families, q, e.disk.dictionary[q]) <==> !Crosses(rec.path, q, e.disk.dictionary[q]))
  {
    hide Inv, IsDrop, Recovered, Committed, Open, NextKey, SplitPath, WholeEffect, HooksDone, BootOf, FamilyNames,
         RecordsErased, Crosses, Whole;
    ghost var c := Claim(session, NextKey(e.mem), rec, [], true, Running);
    e.DropTable(session, rec);
    assert e.mem.claims == map[rec.path := c];
    OneCommitted(e.disk.dictionary, session, c);
    e.Commit(session);
    ghost var d, m, x := e.disk, e.mem, e.lost;
    var cut := e.PostDdl(session, {}, Steady);
    OneHooked(d, m, x, session, c.(phase := Ended(true)), e.disk, e.lost);
    forall q | q in e.disk.dictionary && Whole(old(e.disk).families, q, e.disk.dictionary[q])
      ensures Whole(e.disk.families, q, e.disk.dictionary[q]) <==> !Crosses(rec.path, q, e.disk.dictionary[q])
    {
      KeepsStorageIff(old(e.disk).families, rec.path, q, e.disk.dictionary[q]);
    }
  }

  /**
   Two tables, the second named like an index of the first: dropping the first leaves the second without
   storage.
   */
  method NeighbourIsLost(session: nat, a: Record, keysA: seq<Name>, b: Record, keysB: seq<Name>, drop: Record,
                         boot: nat)
    returns (e: Engine)
    requires Sound(a, Intent.Create) && Sound(b, Intent.Create) && Sound(drop, Intent.Drop) && drop.path == a.path
    requires a.path != b.path && CfName(a.path) + CF_INDEX_INFIX <= CfName(b.path) && boot < UINT64_LIMIT
    ensures fresh(e) && e.Valid() && e.disk.dictionary == map[b.path := keysB]
    ensures forall n :: n in FamilyNames(b.path, keysB) ==> n !in e.disk.families
  {
    hide Inv, SplitPath, FamilyNames, Matches, Whole, Crosses, BootOf, CfName;
    e := new Engine(boot);
    CreateAlone(e, session, a, keysA);
    CreateAlone(e, session, b, keysB);
    StartsWith(a.path, b.path, keysB);
    DropAlone(e, session, drop);
  }

  /** Tables `a` and `a__idx_b` of a database `d` are such. */
  lemma NeighbourExample(keys: seq<Name>)
    ensures var p, q := RelPath([100], [97]), RelPath([100], [97] + CF_INDEX_INFIX + [98]);
      p != q && Crosses(p, q, keys)
  {
    IndexLikeTableIsTaken([100], [97], [98], keys);
  }

  // ---- a path that is created again -------------------------------------------------------

  lemma RecoveredDrops(d: Disk, boot: nat, k: Key, p: Path)
    requires Earlier(d.log, boot, k) && IsDrop(d.log, k, p)
    ensures forall n :: n in Recovered(d, boot, {}).families ==> !Matches(p, n)
  {
    hide DecodeRecord, FromBigEndian, IsDrop, Matches;
    assert !Kept(d, {}, k);
  }

  lemma StillOnRecord(log: Log, log': Log, boot: nat, k: Key, p: Path)
    requires SubLog(log, log') && Earlier(log, boot, k) && IsDrop(log, k, p)
    ensures Earlier(log', boot, k) && IsDrop(log', k, p)
  {
    hide DecodeRecord, FromBigEndian;
  }

  /**
   The first statement of a run creates a path whose drop an earlier run left on record: it commits,
   and its own hook then carries the old drop out on the new table.
   */
  method CreateOverPendingDrop(e: Engine, session: nat, rec: Record, keys: seq<Name>, ghost k: Key)
    requires e.Valid() && e.mem.claims == map[] && !e.mem.recovered && e.mem.sequence < UINT64_LIMIT
    requires Sound(rec, Intent.Create) && rec.path !in e.disk.dictionary
    requires Earlier(e.disk.log, e.mem.boot, k) && IsDrop(e.disk.log, k, rec.path)
    modifies e
    ensures e.Valid() && e.disk.dictionary == old(e.disk).dictionary[rec.path := keys] && e.mem.claims == map[]
    ensures forall n :: n in e.disk.families ==> !Matches(rec.path, n)
  {
    hide Inv, DecodeRecord, FromBigEndian, IsDrop, Recovered, Committed, Open, NextKey, SplitPath, HooksDone, Matches,
         RecordsErased, WholeEffect, FamilyNames;
    var r := e.CreateTable(session, rec, keys, Succeeds);
    ghost var c := Claim(session, NextKey(old(e.mem)), rec, keys, true, Running);
    assert e.mem.claims == map[rec.path := c];
    OneCommitted(e.disk.dictionary, session, c);
    e.Commit(session);
    StillOnRecord(old(e.disk).log, e.disk.log, e.mem.boot, k, rec.path);
    RecoveredDrops(e.disk, e.mem.boot, k, rec.path);
    ghost var d, m, x := e.disk, e.mem, e.lost;
    var cut := e.PostDdl(session, {}, Steady);
    EffectDictionary(d, m, session, x, {}, e.disk, e.lost);
    assert e.mem.claims == map[];
  }

  lemma EffectDictionary(d: Disk, m: Memory, session: nat, lost: set<Path>, refused: set<Name>,
                         d': Disk, lost': set<Path>)
    requires WholeEffect(d, m, session, lost, refused, d', lost')
    ensures d'.dictionary == d.dictionary
  {}

  lemma DropOnRecord(d: Disk, m: Memory, lost: set<Path>, p: Path)
    requires Inv(d, m, lost) && p in m.claims && m.claims[p].rec.what.Drop? && m.claims[p].phase == Ended(true)
    ensures IsDrop(d.log, m.claims[p].key, p)
    ensures forall boot :: boot != m.boot ==> Earlier(d.log, boot, m.claims[p].key)
  {
    hide DecodeRecord, EncodeRecord, FromBigEndian, AllAccounted;
    assert ClaimHolds(d, m, p, m.claims[p]);
    OwnDrop(d, p, m.claims[p]);
  }

  /** The server stops between the commit of a drop and its hook. */
  method DropThenStop(e: Engine, session: nat, rec: Record, next: nat) returns (ghost k: Key)
    requires e.Valid() && Sound(rec, Intent.Drop) && rec.path in e.disk.dictionary && e.mem.claims == map[]
    requires e.mem.sequence < UINT64_LIMIT && next < UINT64_LIMIT && next != e.mem.boot
    requires OwnRun(e.disk.log, e.mem.boot)
    modifies e
    ensures e.Valid() && e.mem == Memory(next, 0, false, map[])
    ensures e.disk.dictionary == old(e.disk).dictionary - {rec.path}
    ensures Earlier(e.disk.log, next, k) && IsDrop(e.disk.log, k, rec.path)
  {
    hide Inv, DecodeRecord, FromBigEndian, IsDrop, Committed, Open, NextKey, SplitPath;
    ghost var c := Claim(session, NextKey(e.mem), rec, [], true, Running);
    e.DropTable(session, rec);
    assert e.mem.claims == map[rec.path := c];
    OneCommitted(e.disk.dictionary, session, c);
    e.Commit(session);
    DropOnRecord(e.disk, e.mem, e.lost, rec.path);
    k := e.mem.claims[rec.path].key;
    e.Crash(next);
  }

  /**
   A table is created and dropped, the server stops before the drop's hook, and the next run creates the
   table again as its first statement: the server has the table, and no family of it is left.
   */
  method TableIsLost(session: nat, created: Record, dropped: Record, keys: seq<Name>, boot: nat, next: nat)
    returns (e: Engine)
    requires Sound(created, Intent.Create) && Sound(dropped, Intent.Drop) && created.path == dropped.path
    requires boot < UINT64_LIMIT && next < UINT64_LIMIT && boot != next
    ensures fresh(e) && e.Valid() && e.disk.dictionary == map[created.path := keys]
    ensures forall n :: n in e.disk.families ==> !Matches(created.path, n)
  {
    hide Inv, IsDrop, BootOf, SplitPath, Matches, Whole;
    e := new Engine(boot);
    CreateAlone(e, session, created, keys);
    ghost var k := DropThenStop(e, session, dropped, next);
    CreateOverPendingDrop(e, session, created, keys, k);
  }

  // ---- a create that fails ----------------------------------------------------------------

  lemma NothingHooked(d: Disk, m: Memory, lost: set<Path>, session: nat, d': Disk, lost': set<Path>)
    requires m.claims == map[] && (m.recovered || OwnRun(d.log, m.boot))
    requires WholeEffect(d, m, session, lost, {}, d', lost')
    ensures d'.families == d.families && d'.dictionary == d.dictionary
  {
    hide Matches, EarlierDrops;
    if !m.recovered { OwnRunHasNoEarlier(d.log, m.boot); }
    assert Doing(Open(m.claims), session) == {};
  }

  /**
   A create that stops with an error, its rollback and its hook, with no crash and nothing refused: the
   families made before the error stay, for a table the server does not have, exactly if there were any.
   */
  method FailedCreate(e: Engine, session: nat, rec: Record, keys: seq<Name>, made: nat)
    requires e.Valid() && e.mem.claims == map[] && e.mem.sequence < UINT64_LIMIT
    requires e.mem.recovered || OwnRun(e.disk.log, e.mem.boot)
    requires Sound(rec, Intent.Create) && rec.path !in e.disk.dictionary
    modifies e
    ensures e.Valid() && e.disk.dictionary == old(e.disk).dictionary && e.mem.claims == map[]
    ensures Left(e.disk, rec.path) <==> made > 0 || Left(old(e.disk), rec.path)
    ensures made > |keys| ==> Whole(e.disk.families, rec.path, keys)
  {
    hide Inv, SplitPath, NextKey, Open, WholeEffect, HooksDone, RecordsErased, Recovered, Left, FamilyNames, BootOf;
    var r := e.CreateTable(session, rec, keys, StopsAfter(made));
    if made > |keys| { AllMade(e.disk.families, rec.path, keys); }
    e.Rollback(session);
    assert e.mem.claims == map[];
    ghost var d, m, x := e.disk, e.mem, e.lost;
    var cut := e.PostDdl(session, {}, Steady);
    NothingHooked(d, m, x, session, e.disk, e.lost);
    assert e.mem.claims == map[];
    SameLeft(d, e.disk, rec.path);
  }

  lemma AllMade(families: set<Name>, p: Path, keys: seq<Name>)
    requires forall i :: 0 <= i <= |keys| ==> FamilyNames(p, keys)[i] in families
    ensures Whole(families, p, keys)
  {
    hide CfName;
    forall n | n in FamilyNames(p, keys) ensures n in families {
      var i :| 0 <= i < |FamilyNames(p, keys)| && FamilyNames(p, keys)[i] == n;
    }
  }
}
