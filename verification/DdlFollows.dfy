/**
 Deferred DDL, the engine's state against the server's view: what it means that the one follows the
 other, and that each event keeps it so.
 */
module DdlFollows {
  import opened Bytes
  import opened CfNames
  import opened DdlLog
  import opened DdlLogRecord
  import opened DdlServer
  import opened Optional

  ghost predicate BootsKnown(boots: set<nat>, log: Log) {
    forall k :: k in log ==> |k| == KEY_LEN && BootOf(k) in boots
  }

  /** Every drop on record is one the server's view knows. */
  ghost predicate DropsKnown(drops: set<Pending>, log: Log) {
    forall k, p :: IsDrop(log, k, p) ==> Pending(k, p) in drops
  }

  /** Tables that were not hit have their storage. */
  predicate Intact(s: Server, families: set<Name>) {
    && (forall q :: q in s.dictionary && q !in s.hit ==> Whole(families, q, s.dictionary[q]))
    && (forall q :: q in s.open && s.open[q].what.Create? && s.open[q].phase == Running && q !in s.hit ==>
          Whole(families, q, s.open[q].keys))
  }

  predicate GoneIsGone(s: Server) {
    forall p :: p in s.gone ==> p !in s.dictionary && (p in s.open ==> s.open[p].what.Drop?)
  }

  /** The engine's state is the one the server's view describes. */
  ghost predicate Follows(s: Server, d: Disk, m: Memory, lost: set<Path>) {
    && s.dictionary == d.dictionary && s.open == Open(m.claims) && s.issued == m.sequence
    && s.boot == m.boot && s.recovered == m.recovered && m.boot in s.boots && BootsKnown(s.boots, d.log)
    && lost <= s.lost && GoneIsGone(s) && DropsKnown(s.drops, d.log) && Intact(s, d.families)
  }

  /** An empty installation in its first run. */
  function NewServer(boot: nat): Server {
    Server(map[], map[], boot, {boot}, 0, false, {}, {}, {}, {})
  }

  lemma NewFollows(boot: nat)
    ensures Follows(NewServer(boot), Disk(map[], {}, map[]), Memory(boot, 0, false, map[]), {})
  {}

  lemma FollowsGuards(s: Server, d: Disk, m: Memory, lost: set<Path>)
    requires Follows(s, d, m, lost)
    ensures s.dictionary == d.dictionary && s.issued == m.sequence && s.open.Keys == m.claims.Keys
  {}

  // ---- what a run says --------------------------------------------------------------------

  /** The view has a reason for families of the path. */
  predicate Expected(s: Server, q: Path) {
    || q in s.dictionary || q in s.lost || (q in s.open && s.open[q].what.Create?)
    || exists d :: d in s.drops && d.path == q
  }

  /**
   A path last dropped has no family left but what a drop of it on record, or another path's name, has
   a reason for.
   */
  ghost predicate GoneOrPending(s: Server, d: Disk, p: Path) {
    DropPending(d.log, p) ||
    forall n :: n in d.families && Matches(p, n) ==> exists q :: q != p && Matches(q, n) && Expected(s, q)
  }

  lemma KeeperIsExpected(s: Server, d: Disk, m: Memory, lost: set<Path>, p: Path)
    requires Follows(s, d, m, lost) && Keeper(d, m, lost, p)
    ensures Expected(s, p)
  {
    hide IsDrop, BootOf, Whole;
    if DropPending(d.log, p) {
      var k :| k in d.log && IsDrop(d.log, k, p);
      assert Pending(k, p) in s.drops && Pending(k, p).path == p;
    }
    assert p in m.claims ==> p in Open(m.claims);
  }

  lemma DroppedIsGone(s: Server, d: Disk, m: Memory, lost: set<Path>, p: Path)
    requires Inv(d, m, lost) && Follows(s, d, m, lost) && p in s.gone && p !in s.lost
    ensures GoneOrPending(s, d, p)
  {
    hide DropPending, ClaimsHold, Matches, Expected, BootsKnown, DropsKnown, Intact;
    if !DropPending(d.log, p) {
      forall n | n in d.families && Matches(p, n) ensures exists q :: q != p && Matches(q, n) && Expected(s, q) {
        assert Accounted(d, m, lost, n);
        var q :| Matches(q, n) && Keeper(d, m, lost, q);
        KeeperIsExpected(s, d, m, lost, q);
        assert p in m.claims ==> p in Open(m.claims);
      }
    }
  }

  lemma RunSays(s: Server, d: Disk, m: Memory, lost: set<Path>)
    requires Inv(d, m, lost) && Follows(s, d, m, lost)
    ensures d.dictionary == s.dictionary && lost <= s.lost
    ensures forall q :: q in d.dictionary && q !in s.hit ==> Whole(d.families, q, d.dictionary[q])
    ensures forall p :: p in s.gone && p !in s.lost ==> GoneOrPending(s, d, p)
    ensures forall k, p :: IsDrop(d.log, k, p) ==> Pending(k, p) in s.drops
  {
    hide Inv, GoneOrPending, IsDrop, Whole, BootsKnown;
    forall p | p in s.gone && p !in s.lost ensures GoneOrPending(s, d, p) {
      DroppedIsGone(s, d, m, lost, p);
    }
  }

  // ---- statements -------------------------------------------------------------------------

  lemma OpenRecorded(m: Memory, c: Claim)
    ensures Open(Recorded(m, c).claims) == Open(m.claims)[c.rec.path := StatementOf(c)]
  {}

  lemma FollowsDrop(s: Server, d: Disk, m: Memory, lost: set<Path>, session: nat, rec: Record)
    requires Follows(s, d, m, lost) && MayDrop(s, rec)
    ensures var m' := Recorded(m, Claim(session, NextKey(m), rec, [], true, Running));
      Follows(Serve(s, DropStatement(session, rec)), d, m', lost)
  {
    hide EncodeKey, BootsKnown, DropsKnown, Encodable, SplitPath, Whole;
    OpenRecorded(m, Claim(session, NextKey(m), rec, [], true, Running));
  }

  lemma FollowsBegin(s: Server, d: Disk, m: Memory, lost: set<Path>, session: nat, rec: Record, keys: seq<Name>,
                     noted: bool, d': Disk)
    requires Follows(s, d, m, lost) && MayCreate(s, rec) && d'.dictionary == d.dictionary && d'.log == d.log
    requires d.families <= d'.families && Whole(d'.families, rec.path, keys)
    ensures var m' := Recorded(m, Claim(session, NextKey(m), rec, keys, noted, Running));
      Follows(Begun(s, session, rec, keys, noted), d', m', lost - {rec.path})
  {
    hide EncodeKey, BootsKnown, DropsKnown, Encodable, SplitPath, FamilyNames;
    OpenRecorded(m, Claim(session, NextKey(m), rec, keys, noted, Running));
  }

  lemma GrownIntact(s: Server, families: set<Name>, families': set<Name>)
    requires Intact(s, families) && families <= families'
    ensures Intact(s, families')
  {
    hide FamilyNames;
  }

  /** A create that stops with an error leaves its path lost when it had made a family. */
  lemma FollowsStop(s: Server, d: Disk, m: Memory, lost: set<Path>, session: nat, rec: Record, keys: seq<Name>,
                    made: nat, d': Disk, lost': set<Path>)
    requires Follows(s, d, m, lost) && MayCreate(s, rec) && d'.dictionary == d.dictionary && d'.log == d.log
    requires d.families <= d'.families && lost' <= if made == 0 then lost else lost + {rec.path}
    ensures Follows(Serve(s, CreateStatement(session, rec, keys, StopsAfter(made))), d', m, lost')
  {
    hide BootsKnown, DropsKnown, MayCreate, Whole, Intact;
    GrownIntact(s, d.families, d'.families);
    if made > 0 { SameIntact(s, s.(lost := s.lost + {rec.path}), d'.families); }
  }

  lemma SameIntact(s: Server, t: Server, families: set<Name>)
    requires Intact(s, families) && t.dictionary == s.dictionary && t.open == s.open && s.hit <= t.hit
    ensures Intact(t, families)
  {
    hide Whole;
  }

  // ---- crashes ----------------------------------------------------------------------------

  lemma CrashId(s: Server, log: Log, boot: nat)
    requires BootsKnown(s.boots, log) && NewBoot(s, boot)
    ensures UnusedBoot(log, boot)
  {
    hide FromBigEndian;
  }

  /** A crash in any state whose disk is as the view says, and whose lost paths the view counts. */
  lemma FollowsCrash(t: Server, d: Disk, lost: set<Path>, boot: nat)
    requires t.dictionary == d.dictionary && BootsKnown(t.boots, d.log) && DropsKnown(t.drops, d.log)
    requires GoneIsGone(t) && lost <= t.lost + CutOff(t.open)
    requires forall q :: q in t.dictionary && q !in t.hit ==> Whole(d.families, q, t.dictionary[q])
    ensures Follows(Crashed(t, boot), d, Memory(boot, 0, false, map[]), lost)
  {
    hide BootOf, DropsKnown, Whole;
  }

  lemma UnrecordedIsCutOff(m: Memory)
    ensures Unrecorded(m) == CutOff(Open(m.claims))
  {}

  lemma IntactDictionary(s: Server, families: set<Name>)
    requires Intact(s, families)
    ensures forall q :: q in s.dictionary && q !in s.hit ==> Whole(families, q, s.dictionary[q])
  {}

  /** The power goes during a create, before or after its record is noted. */
  lemma FollowsCutCreate(s: Server, d: Disk, m: Memory, lost: set<Path>, session: nat, rec: Record, keys: seq<Name>,
                         d': Disk, lost': set<Path>, boot: nat)
    requires Follows(s, d, m, lost) && MayCreate(s, rec) && d'.dictionary == d.dictionary && d'.log == d.log
    requires d.families <= d'.families && lost' <= lost + {rec.path} + Unrecorded(m)
    ensures var e := CreateStatement(session, rec, keys, PowerGoes(0, boot));
      Follows(Serve(s, e), d', Memory(boot, 0, false, map[]), lost')
  {
    hide BootsKnown, DropsKnown, Whole, Intact, EncodeKey;
    var t := Begun(s, session, rec, keys, true);
    GrownIntact(s, d.families, d'.families);
    IntactDictionary(s, d'.families);
    UnrecordedIsCutOff(m);
    forall p | p in CutOff(s.open) ensures p in CutOff(t.open) {}
    assert rec.path in CutOff(t.open);
    FollowsCrash(t, d', lost', boot);
  }

  // ---- commit and rollback ----------------------------------------------------------------

  function EndAll(claims: map<Path, Claim>, mine: set<Path>, committed: bool): map<Path, Claim> {
    map p | p in claims :: if p in mine then claims[p].(phase := Ended(committed)) else claims[p]
  }

  lemma EndAllOpen(claims: map<Path, Claim>, mine: set<Path>, committed: bool)
    ensures Open(EndAll(claims, mine, committed)) == Ending(Open(claims), mine, committed)
  {}

  /** The claims of a session that the server is about to end. */
  function MyClaims(claims: map<Path, Claim>, session: nat): (mine: set<Path>)
    ensures mine == Mine(Open(claims), session)
  {
    set p | p in claims && claims[p].session == session && claims[p].phase == Running
  }

  /** One more claim committed. */
  lemma CommittedStep(d: Disk, claims: map<Path, Claim>, mine: set<Path>, p: Path)
    requires mine <= claims.Keys && p in claims && p !in mine && Encodable(claims[p].rec)
    ensures EndAll(claims, mine + {p}, true) == EndAll(claims, mine, true)[p := claims[p].(phase := Ended(true))]
    ensures forall dict :: CommitOne(d.(dictionary := Committed(dict, Open(claims), mine)), p, claims[p]).dictionary
                        == Committed(dict, Open(claims), mine + {p})
  {
    hide EncodeRecord;
  }

  lemma RunningFacts(d: Disk, m: Memory, lost: set<Path>, p: Path)
    requires Inv(d, m, lost) && p in m.claims && m.claims[p].phase == Running
    ensures m.claims[p].rec.path == p && p != [] && Encodable(m.claims[p].rec) && m.claims[p].key !in d.log
    ensures |m.claims[p].key| == KEY_LEN && BootOf(m.claims[p].key) == m.boot
  {
    hide AllAccounted, FromBigEndian;
    assert ClaimHolds(d, m, p, m.claims[p]);
  }

  /** Where a commit stands when the claims in done have been committed. */
  ghost predicate CommitProgress(d0: Disk, m0: Memory, lost: set<Path>, done: set<Path>, d: Disk, m: Memory) {
    && done <= m0.claims.Keys && Inv(d, m, lost) && d.families == d0.families
    && m == m0.(claims := EndAll(m0.claims, done, true))
    && d.dictionary == Committed(d0.dictionary, Open(m0.claims), done)
    && SubLog(d0.log, d.log)
    && (forall k :: k in d.log && k !in d0.log ==> |k| == KEY_LEN && BootOf(k) == m0.boot)
    && (forall k, p :: IsDrop(d.log, k, p) ==> IsDrop(d0.log, k, p) || NewDrop(m0.claims, done, k, p))
  }

  /** The drop is one of those committed. */
  predicate NewDrop(claims: map<Path, Claim>, done: set<Path>, k: Key, p: Path) {
    p in done && p in claims && claims[p].key == k && claims[p].rec.what.Drop?
  }

  lemma CommitBegins(d: Disk, m: Memory, lost: set<Path>)
    requires Inv(d, m, lost)
    ensures CommitProgress(d, m, lost, {}, d, m)
  {
    hide Inv;
    CommittedNothing(d.dictionary, m.claims);
  }

  lemma CommitProceeds(d0: Disk, m0: Memory, lost: set<Path>, done: set<Path>, d: Disk, m: Memory, p: Path)
    requires CommitProgress(d0, m0, lost, done, d, m) && p in m0.claims && p !in done && m0.claims[p].phase == Running
    ensures p in m.claims && Encodable(m.claims[p].rec)
    ensures CommitProgress(d0, m0, lost, done + {p}, CommitOne(d, p, m.claims[p]), EndOne(m, p, true))
  {
    hide Inv, IsDrop, FromBigEndian, Committed, EndAll, Open, EncodeRecord, BootOf;
    EndAllAt(m0.claims, done, p);
    CommitKeepsInv(d, m, lost, p);
    RunningFacts(d, m, lost, p);
    NewRecord(d.log, m.claims[p]);
    CommittedStep(d, m0.claims, done, p);
  }

  lemma CommitEnds(d0: Disk, m0: Memory, lost: set<Path>, done: set<Path>, d: Disk, m: Memory)
    requires CommitProgress(d0, m0, lost, done, d, m)
    ensures Inv(d, m, lost) && d.families == d0.families && done <= m0.claims.Keys
    ensures m == m0.(claims := EndAll(m0.claims, done, true))
    ensures d.dictionary == Committed(d0.dictionary, Open(m0.claims), done)
    ensures SubLog(d0.log, d.log)
    ensures forall k :: k in d.log && k !in d0.log ==> |k| == KEY_LEN && BootOf(k) == m.boot
    ensures forall k, p :: IsDrop(d.log, k, p) ==> IsDrop(d0.log, k, p) || NewDrop(m0.claims, done, k, p)
  {
    hide Inv, IsDrop, BootOf, Committed, Open;
  }

  lemma CommittedNothing(dictionary: map<Path, seq<Name>>, claims: map<Path, Claim>)
    ensures Committed(dictionary, Open(claims), {}) == dictionary && EndAll(claims, {}, true) == claims
  {}

  lemma EndAllAt(claims: map<Path, Claim>, mine: set<Path>, p: Path)
    requires p in claims && p !in mine
    ensures p in EndAll(claims, mine, true) && EndAll(claims, mine, true)[p] == claims[p]
  {}

  lemma LostAreUnclaimed(d: Disk, m: Memory, lost: set<Path>)
    requires Inv(d, m, lost)
    ensures lost !! m.claims.Keys
  {
    hide ClaimsHold, AllAccounted, FromBigEndian;
  }

  /** The drops a commit leaves on record are known to the view. */
  lemma DropsAfterCommit(s: Server, claims: map<Path, Claim>, session: nat, log: Log, log': Log)
    requires DropsKnown(s.drops, log) && s.open == Open(claims)
    requires forall k, p :: IsDrop(log', k, p) ==>
      IsDrop(log, k, p) || NewDrop(claims, MyClaims(claims, session), k, p)
    ensures DropsKnown(Serve(s, Event.Commit(session)).drops, log')
  {
    hide IsDrop, Committed, Ending;
    forall k, p | IsDrop(log', k, p) && !IsDrop(log, k, p)
      ensures Pending(k, p) in Serve(s, Event.Commit(session)).drops
    {
      assert p in Dropping(s, session) && s.open[p].key == k;
    }
  }

  /** What is gone after a commit is not in the dictionary. */
  lemma GoneAfterCommit(s: Server, session: nat)
    requires GoneIsGone(s)
    ensures GoneIsGone(Serve(s, Event.Commit(session)))
  {}

  lemma IntactAfterCommit(s: Server, session: nat, families: set<Name>)
    requires Intact(s, families)
    ensures Intact(Serve(s, Event.Commit(session)), families)
  {
    hide Whole;
    var t := Serve(s, Event.Commit(session));
    forall q | q in t.dictionary && q !in t.hit ensures Whole(families, q, t.dictionary[q]) {}
  }

  lemma FollowsCommit(s: Server, d: Disk, m: Memory, lost: set<Path>, session: nat, d': Disk, m': Memory)
    requires Inv(d, m, lost) && Follows(s, d, m, lost) && d'.families == d.families
    requires m' == m.(claims := EndAll(m.claims, MyClaims(m.claims, session), true))
    requires d'.dictionary == Committed(d.dictionary, Open(m.claims), MyClaims(m.claims, session))
    requires forall k :: k in d'.log && k !in d.log ==> |k| == KEY_LEN && BootOf(k) == m.boot
    requires forall k, p :: IsDrop(d'.log, k, p) ==>
      IsDrop(d.log, k, p) || NewDrop(m.claims, MyClaims(m.claims, session), k, p)
    ensures Follows(Serve(s, Event.Commit(session)), d', m', lost)
  {
    hide BootOf, IsDrop, Inv, Committed, Ending, EndAll, DropsKnown, Intact, GoneIsGone;
    EndAllOpen(m.claims, MyClaims(m.claims, session), true);
    LostAreUnclaimed(d, m, lost);
    DropsAfterCommit(s, m.claims, session, d.log, d'.log);
    GoneAfterCommit(s, session);
    IntactAfterCommit(s, session, d.families);
  }

  lemma FollowsRollback(s: Server, d: Disk, m: Memory, lost: set<Path>, session: nat)
    requires Follows(s, d, m, lost)
    ensures var m' := m.(claims := EndAll(m.claims, MyClaims(m.claims, session), false));
      Follows(Serve(s, Event.Rollback(session)), d, m', lost)
  {
    hide BootsKnown, DropsKnown, Whole;
    EndAllOpen(m.claims, MyClaims(m.claims, session), false);
  }

  // ---- the hook ---------------------------------------------------------------------------

  /** The session's hook deals with the path. */
  predicate Hooks(claims: map<Path, Claim>, session: nat, p: Path) {
    p in claims && claims[p].session == session && claims[p].phase.Ended?
  }

  function Unhooked(claims: map<Path, Claim>, session: nat): map<Path, Claim> {
    map p | p in claims && !Hooks(claims, session, p) :: claims[p]
  }

  /** Nothing is left of what the session's hook was to remove, but for what the library refuses. */
  ghost predicate HooksDone(claims: map<Path, Claim>, session: nat, refused: set<Name>, families: set<Name>) {
    forall n, p :: n in families && Matches(p, n) && Hooks(claims, session, p) && Undone(claims[p]) ==>
      n in refused || CfName(p) in refused
  }

  /** The records of what the hook removed are gone, but for refused main families. */
  ghost predicate RecordsErased(claims: map<Path, Claim>, session: nat, refused: set<Name>, log: Log) {
    forall p :: Hooks(claims, session, p) && Undone(claims[p]) && CfName(p) !in refused ==> claims[p].key !in log
  }

  ghost predicate SubClaims(a: map<Path, Claim>, b: map<Path, Claim>) {
    forall p :: p in a ==> p in b && a[p] == b[p]
  }

  /** The claims among those given that removals are made for, and those whose families can be lost. */
  function Undoing(claims: map<Path, Claim>, done: set<Path>): set<Path> {
    set p | p in done && p in claims && Undone(claims[p])
  }

  function Losing(claims: map<Path, Claim>, done: set<Path>, refused: set<Name>): set<Path> {
    set p | p in done && p in claims && LosesOwn(StatementOf(claims[p]), refused, p)
  }

  /** Where a hook stands when it has dealt with the paths in done; it may have begun with one more. */
  ghost predicate HookEffect(d0: Disk, m0: Memory, lost0: set<Path>, refused: set<Name>, done: set<Path>,
                             d: Disk, lost: set<Path>) {
    && d.dictionary == d0.dictionary && SubLog(d.log, d0.log)
    && TakenBy(d0.families, d.families, Undoing(m0.claims, done))
    && lost0 <= lost <= lost0 + Losing(m0.claims, done, refused)
  }

  ghost predicate HookProgress(d0: Disk, m0: Memory, lost0: set<Path>, refused: set<Name>, done: set<Path>,
                               d: Disk, m: Memory, lost: set<Path>) {
    && HookEffect(d0, m0, lost0, refused, done, d, lost) && m == m0.(claims := m0.claims - done)
    && (forall n, p :: n in d.families && Matches(p, n) && p in Undoing(m0.claims, done) ==>
          n in refused || CfName(p) in refused)
    && (forall p :: p in Undoing(m0.claims, done) && CfName(p) !in refused ==> m0.claims[p].key !in d.log)
  }

  lemma HookBegins(d: Disk, m: Memory, lost: set<Path>, refused: set<Name>)
    ensures HookProgress(d, m, lost, refused, {}, d, m, lost)
  {
    assert m.claims - {} == m.claims;
  }

  lemma HookClaim(d0: Disk, m0: Memory, lost0: set<Path>, refused: set<Name>, done: set<Path>,
                  d: Disk, m: Memory, lost: set<Path>, p: Path)
    requires HookProgress(d0, m0, lost0, refused, done, d, m, lost) && p in m0.claims && p !in done
    ensures p in m.claims && m.claims[p] == m0.claims[p]
  {
    hide HookEffect, Matches;
  }

  /** One more path: what its families and its record lose, and whether it counts as lost. */
  lemma EffectStep(d0: Disk, m0: Memory, lost0: set<Path>, refused: set<Name>, done: set<Path>,
                   d: Disk, lost: set<Path>, p: Path, d': Disk, lost': set<Path>)
    requires HookEffect(d0, m0, lost0, refused, done, d, lost) && p in m0.claims
    requires d'.dictionary == d.dictionary && SubLog(d'.log, d.log)
    requires TakenBy(d.families, d'.families, if Undone(m0.claims[p]) then {p} else {})
    requires lost' == lost || (lost' == lost + {p} && LosesOwn(StatementOf(m0.claims[p]), refused, p))
    ensures HookEffect(d0, m0, lost0, refused, done + {p}, d', lost')
  {
    hide Matches, LosesOwn, Undone;
    forall n | n in d0.families && n !in d'.families
      ensures exists q :: q in Undoing(m0.claims, done + {p}) && Matches(q, n)
    {
      if n in d.families {
        assert Undone(m0.claims[p]) && Matches(p, n);
        assert p in Undoing(m0.claims, done + {p});
      } else {
        var q :| q in Undoing(m0.claims, done) && Matches(q, n);
        assert q in Undoing(m0.claims, done + {p});
      }
    }
  }

  /** What the outcome of one statement means for the hook. */
  lemma OutcomeFacts(d: Disk, lost: set<Path>, p: Path, c: Claim, refused: set<Name>, d': Disk, lost': set<Path>)
    requires OwnOutcome(d, lost, p, c, refused, d', lost') && c.phase.Ended?
    ensures SubLog(d'.log, d.log) && TakenBy(d.families, d'.families, if Undone(c) then {p} else {})
    ensures lost' == lost || (lost' == lost + {p} && LosesOwn(StatementOf(c), refused, p))
    ensures Undone(c) && CfName(p) !in refused ==> c.key !in d'.log
    ensures Undone(c) ==> forall n :: n in d'.families && Matches(p, n) ==> n in refused || CfName(p) in refused
  {
    hide Matches;
    MainMatches(p);
    if Undone(c) && !MainRefused(d, refused, p) {
      LeftWithout(d, refused, d', p);
    }
  }

  lemma HookProceeds(d0: Disk, m0: Memory, lost0: set<Path>, refused: set<Name>, done: set<Path>,
                     d: Disk, m: Memory, lost: set<Path>, p: Path, d': Disk, m': Memory, lost': set<Path>)
    requires HookProgress(d0, m0, lost0, refused, done, d, m, lost) && p in m0.claims && p !in done
    requires m0.claims[p].phase.Ended?
    requires OwnOutcome(d, lost, p, m0.claims[p], refused, d', lost') && m' == m.(claims := m.claims - {p})
    ensures HookProgress(d0, m0, lost0, refused, done + {p}, d', m', lost')
  {
    hide HookEffect, OwnOutcome, Matches, TakenBy, LosesOwn, Undone;
    OutcomeFacts(d, lost, p, m0.claims[p], refused, d', lost');
    OutcomeDictionary(d, lost, p, m0.claims[p], refused, d', lost');
    EffectStep(d0, m0, lost0, refused, done, d, lost, p, d', lost');
    assert m.claims - {p} == m0.claims - (done + {p});
    assert TakenBy(d.families, d'.families, if Undone(m0.claims[p]) then {p} else {});
    TakenShrinks(d.families, d'.families, if Undone(m0.claims[p]) then {p} else {});
  }

  lemma TakenShrinks(a: set<Name>, b: set<Name>, removing: set<Path>)
    requires TakenBy(a, b, removing)
    ensures b <= a
  {}

  lemma OutcomeDictionary(d: Disk, lost: set<Path>, p: Path, c: Claim, refused: set<Name>, d': Disk, lost': set<Path>)
    requires OwnOutcome(d, lost, p, c, refused, d', lost')
    ensures d'.dictionary == d.dictionary
  {}

  lemma HookEnds(d0: Disk, m0: Memory, lost0: set<Path>, refused: set<Name>, session: nat, d: Disk, m: Memory,
                 lost: set<Path>)
    requires HookProgress(d0, m0, lost0, refused, (set p | p in m0.claims && Hooks(m0.claims, session, p)), d, m, lost)
    ensures m == m0.(claims := Unhooked(m0.claims, session)) && SubClaims(m.claims, m0.claims)
    ensures HooksDone(m0.claims, session, refused, d.families) && RecordsErased(m0.claims, session, refused, d.log)
  {
    hide HookEffect, Matches, Undone;
    assert m.claims == Unhooked(m0.claims, session);
  }

  /** The effect of a hook on the claims of a session, in the view's terms. */
  ghost predicate OwnEffect(d0: Disk, open: map<Path, Statement>, session: nat, lost0: set<Path>, refused: set<Name>,
                            d: Disk, lost: set<Path>) {
    && d.dictionary == d0.dictionary && SubLog(d.log, d0.log)
    && TakenBy(d0.families, d.families, Doing(open, session))
    && lost0 <= lost <= lost0 + LosingOwn(open, session, refused)
  }

  lemma EffectOfSession(d0: Disk, m0: Memory, lost0: set<Path>, refused: set<Name>, done: set<Path>, session: nat,
                        d: Disk, lost: set<Path>)
    requires HookEffect(d0, m0, lost0, refused, done, d, lost)
    requires done <= set p | p in m0.claims && Hooks(m0.claims, session, p)
    ensures OwnEffect(d0, Open(m0.claims), session, lost0, refused, d, lost)
  {
    hide Matches, LosesOwn;
    assert Undoing(m0.claims, done) <= Doing(Open(m0.claims), session);
    forall n | n in d0.families && n !in d.families
      ensures exists q :: q in Doing(Open(m0.claims), session) && Matches(q, n)
    {
      var q :| q in Undoing(m0.claims, done) && Matches(q, n);
      assert q in Doing(Open(m0.claims), session);
    }
  }

  /** The effect of recovery. */
  ghost predicate OldEffect(d0: Disk, boot: nat, lost0: set<Path>, refused: set<Name>, d: Disk, lost: set<Path>) {
    && d.dictionary == d0.dictionary && SubLog(d.log, d0.log)
    && TakenBy(d0.families, d.families, EarlierDrops(d0.log, boot))
    && lost0 <= lost <= lost0 + (LosingOld(EarlierDrops(d0.log, boot), refused) - d0.dictionary.Keys)
  }

  /** The effect of the whole hook. */
  ghost predicate WholeEffect(d0: Disk, m0: Memory, session: nat, lost0: set<Path>, refused: set<Name>,
                              d: Disk, lost: set<Path>) {
    var earlier := if m0.recovered then {} else EarlierDrops(d0.log, m0.boot);
    && d.dictionary == d0.dictionary && SubLog(d.log, d0.log)
    && TakenBy(d0.families, d.families, Doing(Open(m0.claims), session) + earlier)
    && lost0 <= lost <=
       lost0 + LosingOwn(Open(m0.claims), session, refused) + (LosingOld(earlier, refused) - d0.dictionary.Keys)
  }

  lemma EffectsJoin(d0: Disk, m0: Memory, session: nat, lost0: set<Path>, refused: set<Name>,
                    d1: Disk, lost1: set<Path>, d2: Disk, lost2: set<Path>)
    requires if m0.recovered then d1 == d0 && lost1 == lost0 else OldEffect(d0, m0.boot, lost0, refused, d1, lost1)
    requires OwnEffect(d1, Open(m0.claims), session, lost1, refused, d2, lost2)
    ensures WholeEffect(d0, m0, session, lost0, refused, d2, lost2)
  {
    hide Matches, EarlierDrops, Doing, LosingOwn, LosingOld, Open;
    var earlier := if m0.recovered then {} else EarlierDrops(d0.log, m0.boot);
    forall n | n in d0.families && n !in d2.families
      ensures exists p :: p in Doing(Open(m0.claims), session) + earlier && Matches(p, n)
    {
      if n in d1.families {
        var p :| p in Doing(Open(m0.claims), session) && Matches(p, n);
        assert p in Doing(Open(m0.claims), session) + earlier;
      } else {
        var p :| p in earlier && Matches(p, n);
        assert p in Doing(Open(m0.claims), session) + earlier;
      }
    }
  }

  lemma RecoveryOnly(d0: Disk, m0: Memory, session: nat, lost0: set<Path>, refused: set<Name>,
                     d1: Disk, lost1: set<Path>)
    requires !m0.recovered && OldEffect(d0, m0.boot, lost0, refused, d1, lost1)
    ensures WholeEffect(d0, m0, session, lost0, refused, d1, lost1)
  {
    hide Matches, EarlierDrops, Doing, LosingOwn, LosingOld, Open;
    var earlier := EarlierDrops(d0.log, m0.boot);
    forall n | n in d0.families && n !in d1.families
      ensures exists p :: p in Doing(Open(m0.claims), session) + earlier && Matches(p, n)
    {
      var p :| p in earlier && Matches(p, n);
      assert p in Doing(Open(m0.claims), session) + earlier;
    }
  }

  /** The drops of earlier runs on record are known to the view as such. */
  lemma EarlierIsKnown(s: Server, log: Log)
    requires DropsKnown(s.drops, log) && !s.recovered
    ensures EarlierDrops(log, s.boot) <= OldDrops(s)
  {
    hide FromBigEndian, DecodeRecord;
    forall p | p in EarlierDrops(log, s.boot) ensures p in OldDrops(s) {
      var k :| k in log && Earlier(log, s.boot, k) && DecodeRecord(log[k]).value.what.Drop? &&
        p == DecodeRecord(log[k]).value.path;
      assert IsDrop(log, k, p);
      assert Pending(k, p) in s.drops && BootOf(Pending(k, p).key) != s.boot && Pending(k, p).path == p;
    }
  }

  /** Tables the removals do not strike keep their storage. */
  lemma IntactAfterRemoval(s: Server, families: set<Name>, families': set<Name>, removing: set<Path>)
    requires Intact(s, families) && TakenBy(families, families', removing)
    ensures Intact(s.(hit := s.hit + Hits(s, removing)), families')
  {
    hide Matches, FamilyNames;
    var t := s.(hit := s.hit + Hits(s, removing));
    forall q | q in t.dictionary && q !in t.hit ensures Whole(families', q, t.dictionary[q]) {
      StillWhole(families, families', removing, q, s.dictionary[q]);
    }
    forall q | q in t.open && t.open[q].what.Create? && t.open[q].phase == Running && q !in t.hit
      ensures Whole(families', q, t.open[q].keys)
    {
      StillWhole(families, families', removing, q, s.open[q].keys);
    }
  }

  lemma StillWhole(families: set<Name>, families': set<Name>, removing: set<Path>, q: Path, keys: seq<Name>)
    requires Whole(families, q, keys) && TakenBy(families, families', removing) && !Struck(removing, q, keys)
    ensures Whole(families', q, keys)
  {
    hide Matches, FamilyNames;
    forall n, p | n in FamilyNames(q, keys) && p in removing ensures !Matches(p, n) {
      assert !Crosses(p, q, keys);
    }
  }

  lemma TakenByMore(a: set<Name>, b: set<Name>, removing: set<Path>, more: set<Path>)
    requires TakenBy(a, b, removing) && removing <= more
    ensures TakenBy(a, b, more)
  {
    hide Matches;
    forall n | n in a && n !in b ensures exists p :: p in more && Matches(p, n) {
      var p :| p in removing && Matches(p, n);
      assert p in more;
    }
  }

  /** What the hook does to storage is what the view says. */
  lemma FollowsRemoved(s: Server, d: Disk, m: Memory, lost: set<Path>, session: nat, refused: set<Name>,
                       d': Disk, lost': set<Path>)
    requires Follows(s, d, m, lost) && WholeEffect(d, m, session, lost, refused, d', lost')
    ensures var t := Removed(s, session, refused);
      lost' <= t.lost && Intact(t, d'.families) && d'.dictionary == t.dictionary
    ensures BootsKnown(s.boots, d'.log) && DropsKnown(s.drops, d'.log)
  {
    hide Matches, EarlierDrops, Doing, LosingOwn, IndexRefused, Intact, IsDrop, BootOf, Hits, GoneIsGone;
    var earlier := if m.recovered then {} else EarlierDrops(d.log, m.boot);
    if !s.recovered { EarlierIsKnown(s, d.log); }
    assert earlier <= OldDrops(s);
    var removing := Doing(s.open, session) + OldDrops(s);
    TakenByMore(d.families, d'.families, Doing(s.open, session) + earlier, removing);
    IntactAfterRemoval(s, d.families, d'.families, removing);
    SameIntact(s.(hit := s.hit + Hits(s, removing)), Removed(s, session, refused), d'.families);
    forall k, p | IsDrop(d'.log, k, p) ensures Pending(k, p) in s.drops {
      SubLogDrop(d'.log, d.log, k, p);
    }
  }

  /** A drop still on record after a hook is not one the hook erases. */
  lemma LeftOnRecord(s: Server, d: Disk, m: Memory, lost: set<Path>, d': Disk, session: nat, refused: set<Name>,
                     k: Key, p: Path)
    requires Follows(s, d, m, lost) && Inv(d, m, lost) && SubLog(d'.log, d.log) && IsDrop(d'.log, k, p)
    requires RecordsErased(m.claims, session, refused, d'.log)
    requires !m.recovered ==> SubLog(d'.log, Recovered(d, m.boot, refused).log)
    ensures Pending(k, p) in s.drops && !Erases(s, session, refused, Pending(k, p))
  {
    hide FromBigEndian, IsDrop, AllAccounted, Settled, DecodeRecord, Intact, GoneIsGone;
    SubLogDrop(d'.log, d.log, k, p);
    assert Pending(k, p) in s.drops && k in d.log && |k| == KEY_LEN;
    if Erases(s, session, refused, Pending(k, p)) {
      if BootOf(k) != s.boot {
        KeptByRecovery(d, m.boot, refused, k, p);
      } else {
        assert false;
      }
    }
  }

  lemma KeptByRecovery(d: Disk, boot: nat, refused: set<Name>, k: Key, p: Path)
    requires IsDrop(d.log, k, p) && |k| == KEY_LEN && FromBigEndian(k[..8]) != boot
    requires k in Recovered(d, boot, refused).log
    ensures CfName(p) in refused
  {
    hide FromBigEndian, Matches;
    assert Earlier(d.log, boot, k);
    assert Kept(d, refused, k);
    var q :| IsDrop(d.log, k, q) && MainRefused(d, refused, q);
    assert q == p;
  }

  lemma UnhookedOpen(claims: map<Path, Claim>, session: nat)
    ensures Open(Unhooked(claims, session)) == Unhooking(Open(claims), session)
  {}

  lemma IntactUnhooked(s: Server, session: nat, families: set<Name>)
    requires Intact(s, families)
    ensures Intact(s.(open := Unhooking(s.open, session)), families)
  {
    hide Whole;
  }

  lemma FollowsHook(s: Server, d: Disk, m: Memory, lost: set<Path>, d': Disk, m': Memory, lost': set<Path>,
                    session: nat, refused: set<Name>)
    requires Follows(s, d, m, lost) && Inv(d, m, lost) && WholeEffect(d, m, session, lost, refused, d', lost')
    requires m' == m.(claims := Unhooked(m.claims, session), recovered := true)
    requires RecordsErased(m.claims, session, refused, d'.log)
    requires !m.recovered ==> SubLog(d'.log, Recovered(d, m.boot, refused).log)
    ensures Follows(Hooked(s, session, refused), d', m', lost')
  {
    hide FromBigEndian, Inv, IsDrop, Recovered, Erases, Intact, Unhooking, Unhooked, Removed, BootOf, RecordsErased;
    FollowsRemoved(s, d, m, lost, session, refused, d', lost');
    UnhookedOpen(m.claims, session);
    var t := Removed(s, session, refused);
    RemovedKeeps(s, session, refused);
    IntactUnhooked(t, session, d'.families);
    var u := Hooked(s, session, refused);
    SameIntact(t.(open := Unhooking(t.open, session)), u, d'.families);
    GoneUnhooked(s, session);
    forall k, p | IsDrop(d'.log, k, p) ensures Pending(k, p) in u.drops {
      LeftOnRecord(s, d, m, lost, d', session, refused, k, p);
    }
  }

  lemma RemovedKeeps(s: Server, session: nat, refused: set<Name>)
    ensures Removed(s, session, refused) ==
      s.(lost := Removed(s, session, refused).lost, hit := Removed(s, session, refused).hit)
  {}

  lemma GoneUnhooked(s: Server, session: nat)
    requires GoneIsGone(s)
    ensures GoneIsGone(s.(open := Unhooking(s.open, session)))
  {}

  lemma FollowsCutHook(s: Server, d: Disk, m: Memory, lost: set<Path>, d': Disk, m': Memory, lost': set<Path>,
                       session: nat, refused: set<Name>, boot: nat)
    requires Follows(s, d, m, lost) && WholeEffect(d, m, session, lost, refused, d', lost')
    requires SubClaims(m'.claims, m.claims)
    ensures Follows(Crashed(Removed(s, session, refused), boot), d', Memory(boot, 0, false, map[]),
                    lost' + Unrecorded(m'))
  {
    hide BootsKnown, DropsKnown, Intact, Removed, WholeEffect, Open;
    FollowsRemoved(s, d, m, lost, session, refused, d', lost');
    var t := Removed(s, session, refused);
    RemovedKeeps(s, session, refused);
    IntactDictionary(t, d'.families);
    UnrecordedIsCutOff(m);
    forall p | p in Unrecorded(m') ensures p in Unrecorded(m) {}
    FollowsCrash(t, d', lost' + Unrecorded(m'), boot);
  }
}
