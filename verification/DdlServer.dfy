/**
 Deferred DDL, the server's side: what a removal and a recovery leave, what each event does to the
 server's view, and that the engine's state follows it.

 `Server` is what the server alone would say: the dictionary its committed statements leave, the
 statements that still hold their path, the drops that can be on record, the paths whose families it can
 have lost, and the tables a removal under another name can have hit. Over every run the engine's disk
 follows it.
 */
module DdlServer {
  import opened Bytes
  import opened CfNames
  import opened DdlLog
  import opened DdlLogRecord
  import opened Optional

  /** Power may go after so many more writes. */
  datatype Power = Steady | Failing(writes: nat)

  function Spent(p: Power): Power
    requires p != Failing(0)
  {
    if p.Steady? then p else Failing(p.writes - 1)
  }

  // ---- what a removal leaves --------------------------------------------------------------

  /** The library refuses to drop the main family, which stops the removal at once. */
  predicate MainRefused(d: Disk, refused: set<Name>, p: Path) {
    CfName(p) in refused && CfName(p) in d.families
  }

  predicate AnyRefused(refused: set<Name>, p: Path) {
    exists n :: n in refused && Matches(p, n)
  }

  predicate IndexRefused(refused: set<Name>, p: Path) {
    exists n :: n in refused && n != CfName(p) && Matches(p, n)
  }

  /** What the statement asked for did not come about, or was a drop that did: its families go. */
  predicate Undone(c: Claim) {
    c.noted && c.phase == Ended(c.rec.what.Drop?)
  }

  /** What the hook makes of one of its own statements when the power stays. */
  ghost predicate OwnOutcome(d: Disk, lost: set<Path>, p: Path, c: Claim, refused: set<Name>,
                             d': Disk, lost': set<Path>) {
    && d'.dictionary == d.dictionary
    && if !c.noted then d' == d && lost' == lost + if c.phase == Ended(false) then {p} else {}
       else if !Undone(c) then d'.families == d.families && d'.log == d.log - {c.key} && lost' == lost
       else if MainRefused(d, refused, p) then
         d'.families == d.families && d'.log == d.log && lost' == lost + if c.rec.what.Create? then {p} else {}
       else
         && d'.families == Without(d.families, refused, p) && d'.log == d.log - {c.key}
         && lost' == lost + if Left(d', p) then {p} else {}
  }

  lemma LeftWithout(d: Disk, refused: set<Name>, d': Disk, p: Path)
    requires d'.families == Without(d.families, refused, p)
    ensures Left(d', p) <==> exists n :: n in d.families && Matches(p, n) && n in refused
    ensures Left(d', p) ==> AnyRefused(refused, p)
    ensures Left(d', p) && !MainRefused(d, refused, p) ==> IndexRefused(refused, p)
  {
    hide Matches;
    if Left(d', p) {
      var n :| n in d'.families && Matches(p, n);
    }
    if exists n :: n in d.families && Matches(p, n) && n in refused {
      var n :| n in d.families && Matches(p, n) && n in refused;
      assert n in d'.families;
    }
  }

  /**
   What was to go is gone or still on record, except exactly when the library refused one of its
   families and that was not the main family of a committed drop.
   */
  lemma GoneOrOnRecord(d: Disk, m: Memory, lost: set<Path>, p: Path, refused: set<Name>, d': Disk, lost': set<Path>)
    requires Inv(d, m, lost) && p in m.claims && Undone(m.claims[p])
    requires forall k :: IsDrop(d.log, k, p) ==> k == m.claims[p].key
    requires OwnOutcome(d, lost, p, m.claims[p], refused, d', lost')
    ensures (Left(d', p) && !DropPending(d'.log, p)) <==>
      && (exists n :: n in d.families && Matches(p, n) && n in refused)
      && !(m.claims[p].rec.what.Drop? && MainRefused(d, refused, p))
  {
    hide DecodeRecord, EncodeRecord, IsDrop, KeyOfRun, AllAccounted, Matches;
    var c := m.claims[p];
    assert ClaimHolds(d, m, p, c);
    NoDrop(d.log, p);
    NoDrop(d'.log, p);
    DropPendingAfterErase(d, c.key, p);
    if c.rec.what.Drop? {
      OwnDrop(d, p, c);
      assert IsDrop(d.log, c.key, p);
    }
    MainMatches(p);
    if MainRefused(d, refused, p) {
      SameLeft(d, d', p);
    } else {
      LeftWithout(d, refused, d', p);
    }
  }

  lemma MainMatches(p: Path)
    ensures Matches(p, CfName(p))
  {}

  // ---- recovery as one step ---------------------------------------------------------------

  ghost predicate Kept(d: Disk, refused: set<Name>, k: Key) {
    exists p :: IsDrop(d.log, k, p) && MainRefused(d, refused, p)
  }

  /** Some record that is carried out drops a path under whose name the family goes. */
  ghost predicate Taken(log: Log, done: set<Key>, n: Name) {
    exists k, p :: k in done && IsDrop(log, k, p) && Matches(p, n)
  }

  /** The disk with the given records carried out and erased, but for what the library refuses. */
  ghost function Settled(d: Disk, refused: set<Name>, ks: set<Key>): Disk {
    var done := set k | k in ks && !Kept(d, refused, k);
    var left := set n | n in d.families && (!Taken(d.log, done, n) || n in refused);
    Disk(d.dictionary, left, d.log - done)
  }

  ghost function Recovered(d: Disk, boot: nat, refused: set<Name>): Disk {
    Settled(d, refused, set k | k in d.log && Earlier(d.log, boot, k))
  }

  lemma SettledNothing(d: Disk, refused: set<Name>)
    ensures Settled(d, refused, {}) == d
  {}

  lemma DropsOf(log: Log, k: Key, rec: Record)
    requires k in log && DecodeRecord(log[k]) == Some(rec)
    ensures forall p :: IsDrop(log, k, p) <==> rec.what.Drop? && p == rec.path
  {}

  /** A main family is refused after some records have been carried out just when it was before. */
  lemma SettledMain(d: Disk, refused: set<Name>, ks: set<Key>, p: Path)
    ensures MainRefused(Settled(d, refused, ks), refused, p) <==> MainRefused(d, refused, p)
  {
    hide IsDrop, Matches;
  }

  lemma SettledStep(d: Disk, refused: set<Name>, ks: set<Key>, k: Key, rec: Record)
    requires k !in ks && k in d.log && DecodeRecord(d.log[k]) == Some(rec)
    ensures var a, b := Settled(d, refused, ks), Settled(d, refused, ks + {k});
      && b.dictionary == a.dictionary
      && (if rec.what.Drop? && MainRefused(d, refused, rec.path) then b == a
          else b.log == a.log - {k} &&
               b.families == if rec.what.Drop? then Without(a.families, refused, rec.path) else a.families)
  {
    hide IsDrop, DecodeRecord, Matches;
    DropsOf(d.log, k, rec);
    var done := set j | j in ks && !Kept(d, refused, j);
    var done' := set j | j in ks + {k} && !Kept(d, refused, j);
    assert done' == if Kept(d, refused, k) then done else done + {k};
    forall n ensures Taken(d.log, done', n) <==>
        Taken(d.log, done, n) || (!Kept(d, refused, k) && rec.what.Drop? && Matches(rec.path, n))
    {
      if Taken(d.log, done, n) {
        var j, p :| j in done && IsDrop(d.log, j, p) && Matches(p, n);
        assert j in done';
      }
      if !Kept(d, refused, k) && rec.what.Drop? && Matches(rec.path, n) {
        assert k in done' && IsDrop(d.log, k, rec.path);
      }
    }
  }

  lemma SettledWithin(d: Disk, refused: set<Name>, ks: set<Key>)
    ensures var s := Settled(d, refused, ks);
      s.dictionary == d.dictionary && s.families <= d.families && SubLog(s.log, d.log)
    ensures forall k :: k in d.log && k !in ks ==> k in Settled(d, refused, ks).log
  {
    hide IsDrop, Matches;
  }

  /** Every table's storage is all there. */
  predicate AllWhole(d: Disk) {
    forall q :: q in d.dictionary ==> Whole(d.families, q, d.dictionary[q])
  }

  /**
   Recovery keeps the storage of every table exactly when no readable drop record of an earlier run is of
   a path under whose name a removal takes a family of a table the server has.
   */
  lemma RecoveryIsSafeIff(d: Disk, boot: nat)
    requires AllWhole(d)
    ensures AllWhole(Recovered(d, boot, {})) <==>
      forall k, p, q :: Earlier(d.log, boot, k) && IsDrop(d.log, k, p) && q in d.dictionary ==>
        !Crosses(p, q, d.dictionary[q])
  {
    hide DecodeRecord, FromBigEndian, IsDrop, Matches, FamilyNames;
    var r := Recovered(d, boot, {});
    if AllWhole(r) {
      forall k, p, q | Earlier(d.log, boot, k) && IsDrop(d.log, k, p) && q in d.dictionary
        ensures !Crosses(p, q, d.dictionary[q])
      {
        assert !Kept(d, {}, k) && k in d.log;
        assert Whole(r.families, q, r.dictionary[q]);
      }
    } else {
      var q :| q in r.dictionary && !Whole(r.families, q, r.dictionary[q]);
      assert Whole(d.families, q, d.dictionary[q]);
      var n :| n in FamilyNames(q, d.dictionary[q]) && n !in r.families;
      var done := set k | k in (set k | k in d.log && Earlier(d.log, boot, k)) && !Kept(d, {}, k);
      var k, p :| k in done && IsDrop(d.log, k, p) && Matches(p, n);
      assert Earlier(d.log, boot, k) && Crosses(p, q, d.dictionary[q]);
    }
  }

  ghost predicate SubLog(a: Log, b: Log) {
    forall k :: k in a ==> k in b && a[k] == b[k]
  }

  lemma SubLogDrop(a: Log, b: Log, k: Key, p: Path)
    requires SubLog(a, b) && IsDrop(a, k, p)
    ensures k in a && IsDrop(b, k, p)
  {
    hide DecodeRecord;
  }

  /** The paths of the readable drop records of earlier runs. */
  ghost function EarlierDrops(log: Log, boot: nat): set<Path> {
    set k | k in log && Earlier(log, boot, k) && DecodeRecord(log[k]).value.what.Drop? ::
      DecodeRecord(log[k]).value.path
  }

  /** Every family that is gone was taken by the removal of one of the paths. */
  ghost predicate TakenBy(before: set<Name>, after: set<Name>, removing: set<Path>) {
    after <= before && forall n :: n in before && n !in after ==> exists p :: p in removing && Matches(p, n)
  }

  // ---- the server's view ------------------------------------------------------------------

  /**
   How the storage side of a CREATE comes out. Unnoted: all families are made and the record cannot be
   written, which the engine only warns of. StopsAfter: the statement fails with an error when so many
   families have been made, at the creation of the next one or at the foreign keys after the last.
   PowerGoes: the server stops after so many writes.
   */
  datatype Fate = Succeeds | Unnoted | StopsAfter(made: nat) | PowerGoes(writes: nat, boot: nat)

  datatype Event =
    | DropStatement(session: nat, rec: Record)
    | CreateStatement(session: nat, rec: Record, keys: seq<Name>, fate: Fate)
    | Commit(session: nat)
    | Rollback(session: nat)
    | Hook(session: nat, refused: set<Name>, power: Power, boot: nat)
    | Crash(boot: nat)

  /** A statement that still holds its path, and the key of its record. */
  datatype Statement = Statement(session: nat, what: Intent, keys: seq<Name>, noted: bool, key: Key, phase: Phase)

  /** A drop that may be on record. */
  datatype Pending = Pending(key: Key, path: Path)

  /**
   dictionary: the tables of the committed statements. open: the statements whose hook has not run.
   lost: paths whose families may be left with nothing to say so. gone: paths whose last committed
   statement is a drop and that no statement has created since. drops: the drops that may be on record.
   hit: tables that a removal, under a name that takes one of their families, may have cost a family since
   they were created.
   */
  datatype Server = Server(dictionary: map<Path, seq<Name>>, open: map<Path, Statement>, boot: nat, boots: set<nat>,
                           issued: nat, recovered: bool, lost: set<Path>, gone: set<Path>, drops: set<Pending>,
                           hit: set<Path>)

  function BootOf(k: Key): nat {
    if |k| == KEY_LEN then FromBigEndian(k[..8]) else 0
  }

  function StatementOf(c: Claim): Statement {
    Statement(c.session, c.rec.what, c.keys, c.noted, c.key, c.phase)
  }

  function Open(claims: map<Path, Claim>): map<Path, Statement> {
    map p | p in claims :: StatementOf(claims[p])
  }

  /** The record tdb_ddl_record writes for a path with a database and a table. */
  predicate Sound(rec: Record, what: Intent) {
    && rec.what == what && Encodable(rec) && rec.db != [] && rec.table != []
    && SplitPath(rec.path) == TablePath(rec.db, rec.table, true)
  }

  /** Every table below a directory has such a record, made of its database, its own name and its path. */
  lemma TablesHaveRecords(dir: Path, db: Name, table: Name, what: Intent)
    requires NoSlash(db) && NoSlash(table) && db != [] && table != []
    requires |dir| + |db| + |table| + 2 <= MAX_FIELD_LEN
    ensures Sound(Record(what, dir + [SLASH] + db + [SLASH] + table, db, table), what)
  {
    hide SplitPath;
    CfNameBelow(dir, db, table);
  }

  lemma SoundPath(rec: Record, what: Intent)
    requires Sound(rec, what)
    ensures rec.path != []
  {}

  predicate MayDrop(s: Server, rec: Record) {
    Sound(rec, Intent.Drop) && rec.path in s.dictionary && rec.path !in s.open && s.issued < UINT64_LIMIT
  }

  predicate MayCreate(s: Server, rec: Record) {
    Sound(rec, Intent.Create) && rec.path !in s.dictionary && rec.path !in s.open && s.issued < UINT64_LIMIT
  }

  /** The statements of a session that the server is about to end. */
  function Mine(open: map<Path, Statement>, session: nat): set<Path> {
    set p | p in open && open[p].session == session && open[p].phase == Running
  }

  /** The dictionary after some of the open statements have committed. */
  function Committed(dictionary: map<Path, seq<Name>>, open: map<Path, Statement>, mine: set<Path>)
    : map<Path, seq<Name>>
    requires mine <= open.Keys
  {
    map p | p in dictionary.Keys + mine && (p in mine ==> open[p].what.Create?) ::
      if p in mine then open[p].keys else dictionary[p]
  }

  function Ending(open: map<Path, Statement>, mine: set<Path>, committed: bool): map<Path, Statement> {
    map p | p in open :: if p in mine then open[p].(phase := Ended(committed)) else open[p]
  }

  /** Creates that a crash cuts off from their record. */
  function CutOff(open: map<Path, Statement>): set<Path> {
    set p | p in open && open[p].what.Create? && open[p].phase != Ended(true)
  }

  function Crashed(s: Server, boot: nat): Server {
    s.(open := map[], boot := boot, boots := s.boots + {boot}, issued := 0, recovered := false,
       lost := s.lost + CutOff(s.open))
  }

  function Started(s: Server, session: nat, rec: Record, keys: seq<Name>, noted: bool): Server {
    s.(open := s.open[rec.path := Statement(session, rec.what, keys, noted, EncodeKey(s.boot, s.issued), Running)],
       issued := s.issued + 1)
  }

  /** A create that has begun: its families are all there. */
  function Begun(s: Server, session: nat, rec: Record, keys: seq<Name>, noted: bool): Server {
    Started(s, session, rec, keys, noted).(
      lost := s.lost - {rec.path}, gone := s.gone - {rec.path}, hit := s.hit - {rec.path})
  }

  /** The drops of a session that commit. */
  function Dropping(s: Server, session: nat): set<Path> {
    set p | p in Mine(s.open, session) && s.open[p].what.Drop?
  }

  /** The session's hook deals with the path. */
  predicate IsHooked(open: map<Path, Statement>, session: nat, p: Path) {
    p in open && open[p].session == session && open[p].phase.Ended?
  }

  /** The paths whose families the session's hook removes for its own statements. */
  function Doing(open: map<Path, Statement>, session: nat): set<Path> {
    set p | p in open && IsHooked(open, session, p) && open[p].noted && open[p].phase == Ended(open[p].what.Drop?)
  }

  /** The paths whose families recovery removes, if it has yet to run. */
  function OldDrops(s: Server): set<Path> {
    if s.recovered then {} else set d | d in s.drops && BootOf(d.key) != s.boot :: d.path
  }

  predicate Struck(removing: set<Path>, q: Path, keys: seq<Name>) {
    exists p :: p in removing && Crosses(p, q, keys)
  }

  /** The tables, existing or being created, that removals of the paths can cost a family. */
  function Hits(s: Server, removing: set<Path>): set<Path> {
    (set q | q in s.dictionary && Struck(removing, q, s.dictionary[q])) +
    (set q | q in s.open && s.open[q].what.Create? && s.open[q].phase == Running && Struck(removing, q, s.open[q].keys))
  }

  /** What the hook can lose of one of its own statements. */
  predicate LosesOwn(st: Statement, refused: set<Name>, p: Path) {
    if !st.noted then st.phase == Ended(false)
    else if st.what.Create? then st.phase == Ended(false) && AnyRefused(refused, p)
    else st.phase == Ended(true) && IndexRefused(refused, p)
  }

  function LosingOwn(open: map<Path, Statement>, session: nat, refused: set<Name>): set<Path> {
    set p | p in open && IsHooked(open, session, p) && LosesOwn(open[p], refused, p)
  }

  function LosingOld(earlier: set<Path>, refused: set<Name>): set<Path> {
    set p | p in earlier && IndexRefused(refused, p)
  }

  /** What the hook does to storage, as far as the server's view goes. */
  function Removed(s: Server, session: nat, refused: set<Name>): Server {
    s.(lost := s.lost + LosingOwn(s.open, session, refused) + (LosingOld(OldDrops(s), refused) - s.dictionary.Keys),
       hit := s.hit + Hits(s, Doing(s.open, session) + OldDrops(s)))
  }

  /** The hook erases the record: it is the session's own, or of an earlier run, and its removal goes through. */
  predicate Erases(s: Server, session: nat, refused: set<Name>, d: Pending) {
    && CfName(d.path) !in refused
    && if BootOf(d.key) != s.boot then !s.recovered
       else IsHooked(s.open, session, d.path) && s.open[d.path].what.Drop? && s.open[d.path].phase == Ended(true) &&
            s.open[d.path].key == d.key
  }

  function Unhooking(open: map<Path, Statement>, session: nat): map<Path, Statement> {
    map p | p in open && !IsHooked(open, session, p) :: open[p]
  }

  function Hooked(s: Server, session: nat, refused: set<Name>): Server {
    Removed(s, session, refused).(
      open := Unhooking(s.open, session), recovered := true,
      drops := set d | d in s.drops && !Erases(s, session, refused, d))
  }

  function Serve(s: Server, e: Event): Server {
    match e
    case DropStatement(session, rec) => if MayDrop(s, rec) then Started(s, session, rec, [], true) else s
    case CreateStatement(session, rec, keys, fate) =>
      if !MayCreate(s, rec) then s
      else
        (match fate
         case Succeeds => Begun(s, session, rec, keys, true)
         case Unnoted => Begun(s, session, rec, keys, false)
         case StopsAfter(made) => if made == 0 then s else s.(lost := s.lost + {rec.path})
         case PowerGoes(_, boot) => Crashed(Begun(s, session, rec, keys, true), boot))
    case Commit(session) =>
      var mine := Mine(s.open, session);
      s.(dictionary := Committed(s.dictionary, s.open, mine), open := Ending(s.open, mine, true),
         gone := s.gone + Dropping(s, session), lost := s.lost - Dropping(s, session),
         drops := s.drops + (set p | p in Dropping(s, session) :: Pending(s.open[p].key, p)))
    case Rollback(session) => s.(open := Ending(s.open, Mine(s.open, session), false))
    case Hook(session, refused, power, boot) =>
      if power.Steady? then Hooked(s, session, refused) else Crashed(Removed(s, session, refused), boot)
    case Crash(boot) => Crashed(s, boot)
  }

  function ServeAll(s: Server, events: seq<Event>): Server
    decreases |events|
  {
    if events == [] then s else ServeAll(Serve(s, events[0]), events[1..])
  }

  predicate NewBoot(s: Server, boot: nat) {
    boot < UINT64_LIMIT && boot !in s.boots
  }

  /** A new server run has an id no earlier run had. */
  predicate CanHappen(s: Server, e: Event) {
    match e
    case CreateStatement(_, _, _, PowerGoes(_, boot)) => NewBoot(s, boot)
    case Hook(_, _, Failing(_), boot) => NewBoot(s, boot)
    case Crash(boot) => NewBoot(s, boot)
    case _ => true
  }

  predicate AllCanHappen(s: Server, events: seq<Event>)
    decreases |events|
  {
    events == [] || (CanHappen(s, events[0]) && AllCanHappen(Serve(s, events[0]), events[1..]))
  }

  // ---- what a run cannot do ---------------------------------------------------------------

  /** No crash, no refusal, and no create that stops with families made or cannot write its record. */
  predicate Harmless(e: Event) {
    match e
    case CreateStatement(_, _, _, fate) => fate.Succeeds? || fate == StopsAfter(0)
    case Hook(_, refused, power, _) => power.Steady? && refused == {}
    case Crash(_) => false
    case _ => true
  }

  /** No create is open whose record could not be written. */
  predicate AllNoted(s: Server) {
    forall p :: p in s.open ==> s.open[p].noted
  }

  lemma HarmlessStep(s: Server, e: Event)
    requires AllNoted(s) && Harmless(e)
    ensures Serve(s, e).lost <= s.lost && AllNoted(Serve(s, e))
  {
    hide Sound, Crosses, Struck, Matches;
  }

  /** Without crash, refusal or failing create nothing is lost. */
  lemma {:induction false} HarmlessRunLosesNothing(s: Server, events: seq<Event>)
    requires AllNoted(s) && forall i :: 0 <= i < |events| ==> Harmless(events[i])
    ensures ServeAll(s, events).lost <= s.lost
    decreases |events|
  {
    hide Serve, Harmless, AllNoted;
    if events != [] {
      HarmlessStep(s, events[0]);
      assert forall i :: 0 <= i < |events[1..]| ==> events[1..][i] == events[i + 1];
      HarmlessRunLosesNothing(Serve(s, events[0]), events[1..]);
    }
  }

  predicate Named(tables: set<(Path, seq<Name>)>, q: Path) {
    exists t :: t in tables && t.0 == q
  }

  /** The tables hold all that the view names. */
  predicate Within(tables: set<(Path, seq<Name>)>, s: Server) {
    && (forall q :: q in s.dictionary ==> (q, s.dictionary[q]) in tables)
    && (forall q :: q in s.open && s.open[q].what.Create? ==> (q, s.open[q].keys) in tables)
    && (forall q :: q in s.open ==> Named(tables, q))
    && s.boot < UINT64_LIMIT && (forall q :: q in s.open ==> BootOf(s.open[q].key) == s.boot)
    && (forall q :: q in s.open ==>
          (q in s.dictionary <==> (s.open[q].what.Create? <==> s.open[q].phase == Ended(true))))
  }

  predicate Creates(tables: set<(Path, seq<Name>)>, e: Event) {
    e.CreateStatement? ==> (e.rec.path, e.keys) in tables
  }

  /** No table's removal takes a family of another. */
  predicate Apart(tables: set<(Path, seq<Name>)>) {
    forall t, u :: t in tables && u in tables && t.0 != u.0 ==> !Crosses(t.0, u.0, u.1)
  }

  predicate NoCrash(e: Event) {
    match e
    case CreateStatement(_, _, _, fate) => !fate.PowerGoes?
    case Hook(_, _, power, _) => power.Steady?
    case Crash(_) => false
    case _ => true
  }

  predicate NoOldDrops(s: Server) {
    forall d :: d in s.drops ==> BootOf(d.key) == s.boot
  }

  lemma ApartHook(tables: set<(Path, seq<Name>)>, s: Server, session: nat)
    requires Within(tables, s) && Apart(tables) && NoOldDrops(s)
    ensures Hits(s, Doing(s.open, session) + OldDrops(s)) == {}
  {
    hide Crosses;
    assert OldDrops(s) == {};
    forall q | q in s.dictionary ensures !Struck(Doing(s.open, session) + OldDrops(s), q, s.dictionary[q]) {
      forall p | p in Doing(s.open, session) ensures !Crosses(p, q, s.dictionary[q]) {
        var t :| t in tables && t.0 == p;
        assert p != q;
      }
    }
    forall q | q in s.open && s.open[q].what.Create? && s.open[q].phase == Running
      ensures !Struck(Doing(s.open, session) + OldDrops(s), q, s.open[q].keys)
    {
      forall p | p in Doing(s.open, session) ensures !Crosses(p, q, s.open[q].keys) {
        var t :| t in tables && t.0 == p;
        assert p != q;
      }
    }
  }

  lemma KeyBoot(boot: nat, issued: nat)
    requires boot < UINT64_LIMIT && issued < UINT64_LIMIT
    ensures BootOf(EncodeKey(boot, issued)) == boot
  {
    hide FromBigEndian, EncodeKey;
    NextKeyParts(Memory(boot, issued, false, map[]));
  }

  lemma ApartStarted(tables: set<(Path, seq<Name>)>, s: Server, session: nat, rec: Record, keys: seq<Name>, noted: bool)
    requires Within(tables, s) && rec.path !in s.open && s.issued < UINT64_LIMIT && Named(tables, rec.path)
    requires rec.what.Drop? <==> rec.path in s.dictionary
    requires rec.what.Create? ==> (rec.path, keys) in tables
    ensures Within(tables, Started(s, session, rec, keys, noted))
  {
    hide EncodeKey, BootOf, Named;
    KeyBoot(s.boot, s.issued);
  }

  lemma ApartRolledBack(tables: set<(Path, seq<Name>)>, s: Server, session: nat)
    requires Within(tables, s)
    ensures Within(tables, Serve(s, Event.Rollback(session)))
  {
    hide EncodeKey, BootOf, Named;
  }

  lemma ApartCommitted(tables: set<(Path, seq<Name>)>, s: Server, session: nat)
    requires Within(tables, s)
    ensures Within(tables, Serve(s, Event.Commit(session)))
  {
    hide EncodeKey, BootOf, Named;
    var t := Serve(s, Event.Commit(session));
    forall q | q in t.dictionary ensures (q, t.dictionary[q]) in tables {}
    forall q | q in t.open
      ensures q in t.dictionary <==> (t.open[q].what.Create? <==> t.open[q].phase == Ended(true))
    {}
  }

  lemma CommittedDropsAreNew(s: Server, session: nat)
    requires NoOldDrops(s) && forall q :: q in s.open ==> BootOf(s.open[q].key) == s.boot
    ensures NoOldDrops(Serve(s, Event.Commit(session)))
  {
    hide BootOf, Committed, Ending;
  }

  lemma ApartUnhooked(tables: set<(Path, seq<Name>)>, s: Server, session: nat, refused: set<Name>)
    requires Within(tables, s) && NoOldDrops(s)
    ensures Within(tables, Hooked(s, session, refused)) && NoOldDrops(Hooked(s, session, refused))
  {
    hide EncodeKey, BootOf, Named, Hits, LosingOwn, LosingOld, OldDrops, Doing, Erases;
  }

  lemma SameWithin(tables: set<(Path, seq<Name>)>, s: Server, t: Server)
    requires Within(tables, s) && t.dictionary == s.dictionary && t.open == s.open && t.boot == s.boot
    ensures Within(tables, t)
  {
    hide BootOf, Named;
  }

  lemma ApartStep(tables: set<(Path, seq<Name>)>, s: Server, e: Event)
    requires Within(tables, s) && Apart(tables) && NoOldDrops(s) && NoCrash(e) && Creates(tables, e)
    ensures Serve(s, e).hit <= s.hit && Within(tables, Serve(s, e)) && NoOldDrops(Serve(s, e))
  {
    hide Within, SplitPath, Encodable, EncodeKey, Hits, Doing, Apart, LosingOwn, LosingOld, OldDrops, BootOf, Erases,
         Unhooking, Committed, Ending, Dropping;
    match e {
      case DropStatement(session, rec) =>
        if MayDrop(s, rec) {
          WithinNames(tables, s, rec.path);
          ApartStarted(tables, s, session, rec, [], true);
        }
      case CreateStatement(session, rec, keys, fate) =>
        if MayCreate(s, rec) {
          assert (rec.path, keys) in tables && (rec.path, keys).0 == rec.path;
          ApartStarted(tables, s, session, rec, keys, fate.Succeeds?);
          SameWithin(tables, Started(s, session, rec, keys, fate.Succeeds?),
                     Begun(s, session, rec, keys, fate.Succeeds?));
          SameWithin(tables, s, s.(lost := s.lost + {rec.path}));
        }
      case Hook(session, refused, _, _) =>
        ApartHook(tables, s, session);
        ApartUnhooked(tables, s, session, refused);
      case Commit(session) =>
        ApartCommitted(tables, s, session);
        OpenKeys(tables, s);
        CommittedDropsAreNew(s, session);
      case Rollback(session) => ApartRolledBack(tables, s, session);
    }
  }

  lemma OpenKeys(tables: set<(Path, seq<Name>)>, s: Server)
    requires Within(tables, s)
    ensures forall q :: q in s.open ==> BootOf(s.open[q].key) == s.boot
  {}

  lemma WithinNames(tables: set<(Path, seq<Name>)>, s: Server, p: Path)
    requires Within(tables, s) && p in s.dictionary
    ensures Named(tables, p)
  {
    assert (p, s.dictionary[p]) in tables && (p, s.dictionary[p]).0 == p;
  }

  /** When no table's removal takes a family of another and no server run stops, no table is ever hit. */
  lemma {:induction false} ApartRunHitsNothing(tables: set<(Path, seq<Name>)>, s: Server, events: seq<Event>)
    requires Within(tables, s) && Apart(tables) && NoOldDrops(s)
    requires forall i :: 0 <= i < |events| ==> NoCrash(events[i]) && Creates(tables, events[i])
    ensures ServeAll(s, events).hit <= s.hit
    decreases |events|
  {
    hide Serve, Within, Apart, NoOldDrops, NoCrash, Creates;
    if events != [] {
      ApartStep(tables, s, events[0]);
      assert forall i :: 0 <= i < |events[1..]| ==> events[1..][i] == events[i + 1];
      ApartRunHitsNothing(tables, Serve(s, events[0]), events[1..]);
    }
  }
}
