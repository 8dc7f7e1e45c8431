/**
 Deferred DDL, the engine: DROP and CREATE statements, the server's commit and rollback, the post-DDL
 hook, recovery, and crashes after any single write, one by one and over whole runs.
 */
module DdlEngine {
  import opened Bytes
  import opened CfNames
  import opened DdlFollows
  import opened DdlLog
  import opened DdlLogRecord
  import opened DdlServer
  import opened Optional

  /** Made: the families are there and the statement goes on. Stopped: it fails. Cut: the power has gone. */
  datatype Creation = Made | Stopped | Cut

  class Engine {
    var disk: Disk
    var mem: Memory
    /** The paths whose families nothing refers to any more. */
    ghost var lost: set<Path>

    ghost predicate Valid()
      reads this
    {
      Inv(disk, mem, lost)
    }

    constructor (boot: nat)
      requires boot < UINT64_LIMIT
      ensures Valid() && lost == {}
      ensures disk == Disk(map[], {}, map[]) && mem == Memory(boot, 0, false, map[])
      ensures Follows(NewServer(boot), disk, mem, lost)
    {
      disk, mem, lost := Disk(map[], {}, map[]), Memory(boot, 0, false, map[]), {};
      NewFollows(boot);
    }

    /** tdb_ddl_drop_table: nothing happens to the families yet. */
    method DropTable(session: nat, rec: Record)
      requires Valid() && Sound(rec, Intent.Drop) && mem.sequence < UINT64_LIMIT
      requires rec.path in disk.dictionary && rec.path !in mem.claims
      modifies this`mem
      ensures Valid() && mem == Recorded(old(mem), Claim(session, NextKey(old(mem)), rec, [], true, Running))
    {
      hide ClaimsHold, AllAccounted, NextKey, SplitPath;
      var c := Claim(session, NextKey(mem), rec, [], true, Running);
      SoundPath(rec, Intent.Drop);
      RecordKeepsInv(disk, mem, lost, c);
      assert lost - {rec.path} == lost;
      mem := Recorded(mem, c);
    }

    /**
     create: the families are made one by one, the main one first, then the foreign keys, then
     tdb_ddl_note_created. An error before that leaves what was made, and no record of it.
     */
    method CreateTable(session: nat, rec: Record, keys: seq<Name>, fate: Fate) returns (r: Creation)
      requires Valid() && Sound(rec, Intent.Create) && mem.sequence < UINT64_LIMIT
      requires rec.path !in disk.dictionary && rec.path !in mem.claims
      modifies this
      ensures Valid() && disk.dictionary == old(disk).dictionary && disk.log == old(disk).log
      ensures r.Stopped? <==> fate.StopsAfter?
      ensures r.Cut? ==> fate.PowerGoes?
      ensures old(disk).families <= disk.families
      ensures forall n :: n in disk.families && n !in old(disk).families ==> n in FamilyNames(rec.path, keys)
      ensures r.Made? ==>
        && Whole(disk.families, rec.path, keys) && lost == old(lost) - {rec.path}
        && mem == Recorded(old(mem), Claim(session, NextKey(old(mem)), rec, keys, !fate.Unnoted?, Running))
      ensures r.Cut? ==> mem == old(mem) && lost == old(lost) + {rec.path}
      ensures r.Stopped? ==>
        && mem == old(mem) && lost == (if fate.made == 0 then old(lost) else old(lost) + {rec.path})
        && (forall i :: 0 <= i < fate.made && i <= |keys| ==> FamilyNames(rec.path, keys)[i] in disk.families)
        && (Left(disk, rec.path) <==> fate.made > 0 || Left(old(disk), rec.path))
    {
      hide Inv, NextKey, CfName, SplitPath, Matches, Left, FamilyNames;
      var p := rec.path;
      var names := FamilyNames(p, keys);
      OwnNamesMatch(p, keys);
      LosingKeepsInv(disk, mem, lost, p);
      lost := lost + {p};
      var i := 0;
      while i < |names|
        modifies this`disk
        invariant 0 <= i <= |names| && Valid() && (fate.StopsAfter? ==> i <= fate.made)
        invariant disk.dictionary == old(disk).dictionary && disk.log == old(disk).log
        invariant old(disk).families <= disk.families
        invariant forall n :: n in disk.families && n !in old(disk).families ==> n in names
        invariant forall j :: 0 <= j < i ==> names[j] in disk.families
        invariant i == 0 ==> disk == old(disk)
      {
        if fate.PowerGoes? && i == fate.writes { return Cut; }
        if fate.StopsAfter? && i == fate.made { break; }
        assert names[i] in names;
        CreatedKeepsInv(disk, mem, lost, p, names[i]);
        disk := disk.(families := disk.families + {names[i]});
        i := i + 1;
      }
      if fate.StopsAfter? {
        StoppedLeft(old(disk), disk, p, names, i);
        if fate.made == 0 { lost := old(lost); }
        return Stopped;
      }
      var c := Claim(session, NextKey(mem), rec, keys, !fate.Unnoted?, Running);
      SoundPath(rec, Intent.Create);
      RecordKeepsInv(disk, mem, lost, c);
      mem := Recorded(mem, c);
      lost := lost - {p};
      assert lost == old(lost) - {p};
      return Made;
    }

    /** The server commits the session's statement: records and dictionary change together. */
    method Commit(session: nat)
      requires Valid()
      modifies this`disk, this`mem
      ensures Valid() && disk.families == old(disk).families
      ensures mem == old(mem).(claims := EndAll(old(mem).claims, MyClaims(old(mem).claims, session), true))
      ensures disk.dictionary ==
        Committed(old(disk).dictionary, Open(old(mem).claims), MyClaims(old(mem).claims, session))
      ensures SubLog(old(disk).log, disk.log)
      ensures forall k :: k in disk.log && k !in old(disk).log ==> |k| == KEY_LEN && BootOf(k) == mem.boot
      ensures forall k, p :: IsDrop(disk.log, k, p) ==>
        IsDrop(old(disk).log, k, p) || NewDrop(old(mem).claims, MyClaims(old(mem).claims, session), k, p)
    {
      hide Inv, CommitProgress;
      var d, m := disk, mem;
      var mine := MyClaims(mem.claims, session);
      var rest := mine;
      assert mine - rest == {};
      CommitBegins(disk, mem, lost);
      while rest != {}
        modifies {}
        invariant rest <= mine && CommitProgress(disk, mem, lost, mine - rest, d, m)
        decreases |rest|
      {
        var p :| p in rest;
        CommitProceeds(disk, mem, lost, mine - rest, d, m, p);
        assert mine - (rest - {p}) == (mine - rest) + {p};
        d, m := CommitOne(d, p, m.claims[p]), EndOne(m, p, true);
        rest := rest - {p};
      }
      assert mine - rest == mine;
      CommitEnds(disk, mem, lost, mine, d, m);
      disk, mem := d, m;
    }

    /** The server rolls the session's statement back: the records go with the transaction. */
    method Rollback(session: nat)
      requires Valid()
      modifies this`mem
      ensures Valid()
      ensures mem == old(mem).(claims := EndAll(old(mem).claims, MyClaims(old(mem).claims, session), false))
    {
      hide Inv, Open;
      var m := mem;
      var mine := MyClaims(mem.claims, session);
      var rest := mine;
      assert mem.claims == EndAll(mem.claims, mine - rest, false);
      while rest != {}
        modifies {}
        invariant rest <= mine && Inv(disk, m, lost)
        invariant m == mem.(claims := EndAll(mem.claims, mine - rest, false))
        decreases |rest|
      {
        var p :| p in rest;
        RollbackKeepsInv(disk, m, lost, p);
        m := EndOne(m, p, false);
        rest := rest - {p};
      }
      assert mine - rest == mine;
      mem := m;
    }

    /** The server stops, at any moment, and starts again. */
    method Crash(boot: nat)
      requires Valid() && UnusedBoot(disk.log, boot)
      modifies this`mem, this`lost
      ensures Valid() && mem == Memory(boot, 0, false, map[]) && lost == old(lost) + Unrecorded(old(mem))
    {
      hide Inv;
      CrashKeepsInv(disk, mem, lost, boot);
      lost := lost + Unrecorded(mem);
      mem := Memory(boot, 0, false, map[]);
    }

    /**
     tdb_ddl_drop_table_cfs_now: the families whose names begin with the table's and the index infix are
     listed, the main family is dropped, then those. A refused main family stops it; a refused index
     family is passed over.
     */
    method DropFamiliesNow(p: Path, refused: set<Name>, power: Power) returns (cut: bool, ok: bool, left: Power)
      requires Valid()
      modifies this`disk
      ensures power.Steady? ==> !cut && left.Steady?
      ensures Valid() && OnlyTaken(old(disk), disk, p)
      ensures cut ==> !ok
      ensures !cut ==> (ok <==> !MainRefused(old(disk), refused, p))
      ensures MainRefused(old(disk), refused, p) ==> disk == old(disk)
      ensures ok ==> disk.families == Without(old(disk).families, refused, p)
    {
      hide Inv, CfName;
      left := power;
      var name := ToCfName(p);
      var prefix := name + CF_INDEX_INFIX;
      var rest := set n | n in disk.families && prefix <= n;
      if name in refused && name in disk.families { return false, false, left; }
      if left == Failing(0) { return true, false, left; }
      left := Spent(left);
      var d := disk.(families := disk.families - {name});
      RemovalKeepsInv(disk, d, mem, lost);
      disk := d;
      while rest != {}
        modifies this`disk
        invariant Valid() && OnlyTaken(old(disk), disk, p) && (power.Steady? ==> left.Steady?)
        invariant forall n :: n in disk.families && Matches(p, n) ==> n in rest || n in refused
        invariant forall n :: n in old(disk).families && n in refused ==> n in disk.families
        invariant forall n :: n in rest ==> Matches(p, n)
        decreases |rest|
      {
        var n :| n in rest;
        rest := rest - {n};
        if n !in refused {
          if left == Failing(0) { return true, false, left; }
          left := Spent(left);
          d := disk.(families := disk.families - {n});
          RemovalKeepsInv(disk, d, mem, lost);
          disk := d;
        }
      }
      assert disk.families == Without(old(disk).families, refused, p);
      return false, true, left;
    }

    /**
     tdb_ddl_resolve of a record of an earlier run, whose statement therefore committed. The record is
     erased only once what it asks for is done, but for what the library refuses.
     */
    method ResolveEarlier(k: Key, rec: Record, refused: set<Name>, power: Power) returns (cut: bool, left: Power)
      requires Valid() && Earlier(disk.log, mem.boot, k) && DecodeRecord(disk.log[k]) == Some(rec)
      modifies this`disk, this`lost
      ensures power.Steady? ==> !cut && left.Steady?
      ensures Valid() && OnlyTaken(old(disk), disk.(log := old(disk).log), rec.path)
      ensures disk.dictionary == old(disk).dictionary
      ensures rec.what.Create? ==> disk.families == old(disk).families && lost == old(lost)
      ensures cut ==> disk.log == old(disk).log && lost == old(lost)
      ensures !cut && rec.what.Drop? && MainRefused(old(disk), refused, rec.path) ==>
        disk == old(disk) && lost == old(lost)
      ensures !cut && !(rec.what.Drop? && MainRefused(old(disk), refused, rec.path)) ==>
        && disk.log == old(disk).log - {k}
        && disk.families ==
           (if rec.what.Drop? then Without(old(disk).families, refused, rec.path) else old(disk).families)
      ensures lost == old(lost) ||
        (lost == old(lost) + {rec.path} && rec.path !in disk.dictionary && IndexRefused(refused, rec.path))
    {
      hide DecodeRecord, ClaimsHold, DropPending, FromBigEndian, AllAccounted, Left, Matches;
      left := power;
      var p := rec.path;
      DropsOf(disk.log, k, rec);
      EarlierIsUnclaimed(disk, mem, lost, k);
      if rec.what.Drop? {
        var ok;
        cut, ok, left := DropFamiliesNow(p, refused, left);
        if cut || !ok { return cut, left; }
        LeftWithout(old(disk), refused, disk, p);
      }
      if left == Failing(0) { return true, left; }
      left := Spent(left);
      if rec.what.Drop? && Left(disk, p) && p !in disk.dictionary && p !in mem.claims {
        LosingKeepsInv(disk, mem, lost, p);
        lost := lost + {p};
      }
      if rec.what.Drop? && p in mem.claims {
        ClaimedIsKept(disk, mem, lost, k, p);
      }
      EraseKeepsInv(disk, mem, lost, k, p);
      disk := Erased(disk, k);
      return false, left;
    }

    /**
     The hook and one of the session's own statements: tdb_ddl_resolve of its record, committed when that
     is in storage. A create that could not write its record is on no list.
     */
    method ResolveOwn(p: Path, refused: set<Name>, power: Power) returns (cut: bool, left: Power)
      requires Valid() && p in mem.claims && mem.claims[p].phase.Ended?
      modifies this
      ensures power.Steady? ==> !cut && left.Steady?
      ensures Valid() && OnlyTaken(old(disk), disk.(log := old(disk).log), p)
      ensures !Undone(old(mem).claims[p]) ==> disk.families == old(disk).families
      ensures !cut ==> OwnOutcome(old(disk), old(lost), p, old(mem).claims[p], refused, disk, lost)
      ensures !cut ==> mem == old(mem).(claims := old(mem).claims - {p})
      ensures cut ==> mem == old(mem) || mem == old(mem).(claims := old(mem).claims - {p})
      ensures cut ==> disk.log == old(disk).log
      ensures cut ==>
        lost == old(lost) || (lost == old(lost) + {p} && LosesOwn(StatementOf(old(mem).claims[p]), refused, p))
    {
      hide DecodeRecord, AllAccounted, DropPending, EncodeRecord, KeyOfRun, IsDrop, Matches, Left;
      left := power;
      var c := mem.claims[p];
      assert ClaimHolds(disk, mem, p, c);
      if !c.noted {
        Release(p, c.phase == Ended(false));
        return false, left;
      }
      var committed := c.key in disk.log;
      if c.rec.what.Drop? == committed {
        var ok;
        cut, ok, left := DropFamiliesNow(p, refused, left);
        if cut { return cut, left; }
        if !ok {
          Release(p, !committed);
          return false, left;
        }
        LeftWithout(old(disk), refused, disk, p);
      }
      ghost var leftover := Undone(c) && Left(disk, p);
      ghost var m := mem;
      Release(p, leftover && !committed);
      if left == Failing(0) { return true, left; }
      left := Spent(left);
      if leftover && committed {
        LosingKeepsInv(disk, mem, lost, p);
        lost := lost + {p};
      }
      if committed { OwnDrop(disk, p, c); } else { NotOnRecord(disk.log, c.key); }
      EraseKeepsInv(disk, mem, lost, c.key, p);
      disk := Erased(disk, c.key);
      SameLeft(disk.(log := old(disk).log), disk, p);
      return false, left;
    }

    /** The statement lets go of its path. */
    method Release(p: Path, ghost losing: bool)
      requires Valid() && p in mem.claims && mem.claims[p].phase.Ended?
      requires losing ==> p !in disk.dictionary
      requires mem.claims[p].rec.what.Create? && !mem.claims[p].phase.committed ==> losing || !Left(disk, p)
      modifies this`mem, this`lost
      ensures Valid() && mem == old(mem).(claims := old(mem).claims - {p})
      ensures lost == if losing then old(lost) + {p} else old(lost)
    {
      hide Inv;
      ReleaseKeepsInv(disk, mem, lost, p, losing);
      mem := mem.(claims := mem.claims - {p});
      lost := if losing then lost + {p} else lost;
    }

    /** tdb_ddl_recover: collect the records of earlier runs, then resolve each. */
    method Recover(refused: set<Name>, power: Power) returns (cut: bool, left: Power)
      requires Valid()
      modifies this`disk, this`lost
      ensures power.Steady? ==> !cut && left.Steady?
      ensures Valid() && OldEffect(old(disk), mem.boot, old(lost), refused, disk, lost)
      ensures !cut ==> disk == Recovered(old(disk), mem.boot, refused)
    {
      hide Inv, DecodeRecord, FromBigEndian, Settled, IsDrop, MainRefused, OldEffect, OnlyTaken, Without;
      left := power;
      var pending := set k | k in disk.log && Earlier(disk.log, mem.boot, k);
      var rest := pending;
      SettledNothing(disk, refused);
      OldNothing(disk, mem.boot, lost, refused);
      assert pending - rest == {};
      while rest != {}
        modifies this`disk, this`lost
        invariant rest <= pending && Valid() && (power.Steady? ==> left.Steady?)
        invariant disk == Settled(old(disk), refused, pending - rest)
        invariant OldEffect(old(disk), mem.boot, old(lost), refused, disk, lost)
        decreases |rest|
      {
        var k :| k in rest;
        SettledWithin(old(disk), refused, pending - rest);
        var rec := DecodeRecord(disk.log[k]).value;
        SettledMain(old(disk), refused, pending - rest, rec.path);
        SettledStep(old(disk), refused, pending - rest, k, rec);
        ghost var d, x := disk, lost;
        cut, left := ResolveEarlier(k, rec, refused, left);
        OldStep(old(disk), mem.boot, old(lost), refused, d, x, k, rec, disk, lost);
        if cut { return cut, left; }
        assert (pending - rest) + {k} == pending - (rest - {k});
        rest := rest - {k};
      }
      assert pending - rest == pending;
      return false, left;
    }

    /** The session's own statements, one by one. */
    method ResolveMine(session: nat, refused: set<Name>, power: Power) returns (cut: bool)
      requires Valid()
      modifies this
      ensures power.Steady? ==> !cut
      ensures Valid() && OwnEffect(old(disk), Open(old(mem).claims), session, old(lost), refused, disk, lost)
      ensures mem == old(mem).(claims := mem.claims) && SubClaims(mem.claims, old(mem).claims)
      ensures !cut ==> mem.claims == Unhooked(old(mem).claims, session)
      ensures !cut ==> HooksDone(old(mem).claims, session, refused, disk.families)
      ensures !cut ==> RecordsErased(old(mem).claims, session, refused, disk.log)
    {
      hide Inv, OwnOutcome, OnlyTaken, SubClaims, HooksDone, HookProgress, RecordsErased, OwnEffect, HookEffect, Open,
           LosesOwn, Undone;
      var left := power;
      var mine := set p | p in mem.claims && Hooks(mem.claims, session, p);
      var rest := mine;
      assert mine - rest == {};
      HookBegins(disk, mem, lost, refused);
      while rest != {}
        modifies this
        invariant rest <= mine && Valid() && (power.Steady? ==> left.Steady?)
        invariant HookProgress(old(disk), old(mem), old(lost), refused, mine - rest, disk, mem, lost)
        decreases |rest|
      {
        var p :| p in rest;
        ghost var d, m, x := disk, mem, lost;
        HookClaim(old(disk), old(mem), old(lost), refused, mine - rest, d, m, x, p);
        cut, left := ResolveOwn(p, refused, left);
        if cut {
          HookStops(old(disk), old(mem), old(lost), refused, mine - rest, d, m, x, p, disk, mem, lost);
          EffectOfSession(old(disk), old(mem), old(lost), refused, (mine - rest) + {p}, session, disk, lost);
          return;
        }
        HookProceeds(old(disk), old(mem), old(lost), refused, mine - rest, d, m, x, p, disk, mem, lost);
        assert mine - (rest - {p}) == (mine - rest) + {p};
        rest := rest - {p};
      }
      assert mine - rest == mine;
      HookEnds(old(disk), old(mem), old(lost), refused, session, disk, mem, lost);
      ProgressEffect(old(disk), old(mem), old(lost), refused, mine, disk, mem, lost);
      EffectOfSession(old(disk), old(mem), old(lost), refused, mine, session, disk, lost);
      return false;
    }

    /** tdb_ddl_post_ddl: recovery, once in a run, then the session's own statements. */
    method PostDdl(session: nat, refused: set<Name>, power: Power) returns (cut: bool)
      requires Valid()
      modifies this
      ensures power.Steady? ==> !cut
      ensures Valid() && WholeEffect(old(disk), old(mem), session, old(lost), refused, disk, lost)
      ensures mem.boot == old(mem).boot && mem.sequence == old(mem).sequence
      ensures SubClaims(mem.claims, old(mem).claims)
      ensures !cut ==> mem.recovered && mem.claims == Unhooked(old(mem).claims, session)
      ensures !cut ==> HooksDone(old(mem).claims, session, refused, disk.families)
      ensures !cut ==> RecordsErased(old(mem).claims, session, refused, disk.log)
      ensures !cut && !old(mem).recovered ==>
        var d := Recovered(old(disk), old(mem).boot, refused);
        disk.families <= d.families && SubLog(disk.log, d.log)
    {
      hide Inv, Recovered, HooksDone, RecordsErased, WholeEffect, OldEffect, OwnEffect, Open;
      var left := power;
      if !mem.recovered {
        RecoveredFlag(disk, mem, lost);
        mem := mem.(recovered := true);
        cut, left := Recover(refused, left);
        if cut {
          RecoveryOnly(old(disk), old(mem), session, old(lost), refused, disk, lost);
          return;
        }
      }
      ghost var d, x := disk, lost;
      cut := ResolveMine(session, refused, left);
      EffectsJoin(old(disk), old(mem), session, old(lost), refused, d, x, disk, lost);
      OwnShrinks(d, Open(old(mem).claims), session, x, refused, disk, lost);
    }

    /**
     Any run of statements, failing creates, commits, rollbacks, hooks and crashes after any write. The
     dictionary is the one the committed statements leave. Its tables keep their families, whatever was
     rolled back, unless a removal under a name that takes one of them may have hit them. A path whose
     last committed statement is a drop has no family left but what other names account for, or its drop
     is on record, where it is only from its commit to its hook or to a recovery. Families are lost track
     of only where the server's view says so.
     */
    method Run(events: seq<Event>, ghost s: Server)
      requires Valid() && Follows(s, disk, mem, lost) && AllCanHappen(s, events)
      modifies this
      ensures Valid() && Follows(ServeAll(s, events), disk, mem, lost)
      ensures disk.dictionary == ServeAll(s, events).dictionary && lost <= ServeAll(s, events).lost
      ensures forall q :: q in disk.dictionary && q !in ServeAll(s, events).hit ==>
        Whole(disk.families, q, disk.dictionary[q])
      ensures forall p :: p in ServeAll(s, events).gone && p !in ServeAll(s, events).lost ==>
        GoneOrPending(ServeAll(s, events), disk, p)
      ensures forall k, p :: IsDrop(disk.log, k, p) ==> Pending(k, p) in ServeAll(s, events).drops
      decreases |events|
    {
      hide Inv, Follows, Serve, CanHappen, Whole, GoneOrPending, IsDrop;
      if |events| > 0 {
        RunOne(events[0], s);
        Run(events[1..], Serve(s, events[0]));
      }
      RunSays(ServeAll(s, events), disk, mem, lost);
    }

    method RunOne(e: Event, ghost s: Server)
      requires Valid() && Follows(s, disk, mem, lost) && CanHappen(s, e)
      modifies this
      ensures Valid() && Follows(Serve(s, e), disk, mem, lost)
    {
      hide Inv, Follows, Serve, SplitPath, Encodable;
      ghost var d, m, x := disk, mem, lost;
      FollowsGuards(s, d, m, x);
      match e {
        case DropStatement(session, rec) =>
          if Sound(rec, Intent.Drop) && rec.path in disk.dictionary && rec.path !in mem.claims &&
             mem.sequence < UINT64_LIMIT
          {
            DropTable(session, rec);
            FollowsDrop(s, d, m, x, session, rec);
          } else {
            NoDropStatement(s, session, rec);
          }
        case CreateStatement(session, rec, keys, fate) =>
          RunCreate(session, rec, keys, fate, s);
        case Commit(session) =>
          Commit(session);
          FollowsCommit(s, d, m, x, session, disk, mem);
        case Rollback(session) =>
          Rollback(session);
          FollowsRollback(s, d, m, x, session);
        case Hook(session, refused, power, boot) =>
          RunHook(session, refused, power, boot, s);
        case Crash(boot) =>
          RunCrash(boot, s);
          CrashServes(s, boot);
      }
    }

    method RunCrash(boot: nat, ghost s: Server)
      requires Valid() && Follows(s, disk, mem, lost) && NewBoot(s, boot)
      modifies this
      ensures Valid() && Follows(Crashed(s, boot), disk, mem, lost)
    {
      hide Inv, BootsKnown, DropsKnown, Whole;
      CrashId(s, disk.log, boot);
      UnrecordedIsCutOff(mem);
      Crash(boot);
      FollowsCrash(s, disk, lost, boot);
    }

    method RunCreate(session: nat, rec: Record, keys: seq<Name>, fate: Fate, ghost s: Server)
      requires Valid() && Follows(s, disk, mem, lost)
      requires CanHappen(s, CreateStatement(session, rec, keys, fate))
      modifies this
      ensures Valid() && Follows(Serve(s, CreateStatement(session, rec, keys, fate)), disk, mem, lost)
    {
      hide Inv, Follows, Serve, SplitPath, Encodable, Recorded, NextKey, Whole, Left, FamilyNames, Crashed, Unrecorded;
      ghost var d, m, x := disk, mem, lost;
      FollowsGuards(s, d, m, x);
      CreateServes(s, session, rec, keys, fate);
      if Sound(rec, Intent.Create) && rec.path !in disk.dictionary && rec.path !in mem.claims &&
         mem.sequence < UINT64_LIMIT
      {
        var r := CreateTable(session, rec, keys, fate);
        match fate {
          case Succeeds => FollowsBegin(s, d, m, x, session, rec, keys, true, disk);
          case Unnoted => FollowsBegin(s, d, m, x, session, rec, keys, false, disk);
          case StopsAfter(made) => FollowsStop(s, d, m, x, session, rec, keys, made, disk, lost);
          case PowerGoes(_, boot) =>
            ghost var m', x' := mem, lost;
            CrashIdFollows(s, d, m, x, boot);
            Crash(boot);
            CutLost(m, x, Claim(session, NextKey(m), rec, keys, true, Running), m', x', lost);
            FollowsCutCreate(s, d, m, x, session, rec, keys, disk, lost, boot);
        }
      }
    }

    method RunHook(session: nat, refused: set<Name>, power: Power, boot: nat, ghost s: Server)
      requires Valid() && Follows(s, disk, mem, lost) && CanHappen(s, Hook(session, refused, power, boot))
      modifies this
      ensures Valid() && Follows(Serve(s, Hook(session, refused, power, boot)), disk, mem, lost)
    {
      hide Inv, Follows, WholeEffect, Hooked, Removed, Crashed, Recovered, RecordsErased, HooksDone, SubClaims;
      ghost var d, m, x := disk, mem, lost;
      var cut := PostDdl(session, refused, power);
      if power.Failing? {
        ghost var m', x' := mem, lost;
        CrashIdEffect(s, d, m, x, session, refused, disk, lost, boot);
        Crash(boot);
        FollowsCutHook(s, d, m, x, disk, m', x', session, refused, boot);
      } else {
        FollowsHook(s, d, m, x, disk, mem, lost, session, refused);
      }
    }
  }

  // ---- steps of the methods ---------------------------------------------------------------

  /** A stopped create leaves families exactly when it had made one, or there were some before. */
  lemma StoppedLeft(d: Disk, d': Disk, p: Path, names: seq<Name>, i: nat)
    requires d.families <= d'.families && i <= |names| && (i == 0 ==> d' == d)
    requires forall n :: n in names ==> Matches(p, n)
    requires forall j :: 0 <= j < i ==> names[j] in d'.families
    ensures Left(d', p) <==> i > 0 || Left(d, p)
  {
    hide Matches;
    if i > 0 {
      assert names[0] in names && names[0] in d'.families;
    }
  }

  lemma OldNothing(d: Disk, boot: nat, lost: set<Path>, refused: set<Name>)
    ensures OldEffect(d, boot, lost, refused, d, lost)
  {}

  /** One more record of an earlier run. */
  lemma OldStep(d0: Disk, boot: nat, lost0: set<Path>, refused: set<Name>, d: Disk, lost: set<Path>,
                k: Key, rec: Record, d': Disk, lost': set<Path>)
    requires OldEffect(d0, boot, lost0, refused, d, lost) && k in d.log && Earlier(d0.log, boot, k)
    requires DecodeRecord(d.log[k]) == Some(rec) && OnlyTaken(d, d'.(log := d.log), rec.path)
    requires rec.what.Create? ==> d'.families == d.families && lost' == lost
    requires d'.log == d.log || d'.log == d.log - {k}
    requires lost' == lost ||
      (lost' == lost + {rec.path} && rec.path !in d'.dictionary && IndexRefused(refused, rec.path))
    ensures OldEffect(d0, boot, lost0, refused, d', lost')
  {
    hide Matches, FromBigEndian, IndexRefused, DecodeRecord;
    assert d0.log[k] == d.log[k];
    assert rec.what.Drop? ==> rec.path in EarlierDrops(d0.log, boot);
    forall n | n in d0.families && n !in d'.families
      ensures exists p :: p in EarlierDrops(d0.log, boot) && Matches(p, n)
    {
      if n in d.families {
        assert Matches(rec.path, n);
      }
    }
  }

  /** The power went while a path was being dealt with. */
  lemma HookStops(d0: Disk, m0: Memory, lost0: set<Path>, refused: set<Name>, done: set<Path>,
                  d: Disk, m: Memory, lost: set<Path>, p: Path, d': Disk, m': Memory, lost': set<Path>)
    requires HookProgress(d0, m0, lost0, refused, done, d, m, lost) && p in m0.claims
    requires OnlyTaken(d, d'.(log := d.log), p) && d'.log == d.log
    requires !Undone(m0.claims[p]) ==> d'.families == d.families
    requires m' == m || m' == m.(claims := m.claims - {p})
    requires lost' == lost || (lost' == lost + {p} && LosesOwn(StatementOf(m0.claims[p]), refused, p))
    ensures HookEffect(d0, m0, lost0, refused, done + {p}, d', lost')
    ensures m' == m0.(claims := m'.claims) && SubClaims(m'.claims, m0.claims)
  {
    hide Matches, LosesOwn, HookEffect;
    EffectStep(d0, m0, lost0, refused, done, d, lost, p, d', lost');
  }

  lemma ProgressEffect(d0: Disk, m0: Memory, lost0: set<Path>, refused: set<Name>, done: set<Path>,
                       d: Disk, m: Memory, lost: set<Path>)
    requires HookProgress(d0, m0, lost0, refused, done, d, m, lost)
    ensures HookEffect(d0, m0, lost0, refused, done, d, lost)
  {
    hide HookEffect;
  }

  lemma OwnShrinks(d0: Disk, open: map<Path, Statement>, session: nat, lost0: set<Path>, refused: set<Name>,
                   d: Disk, lost: set<Path>)
    requires OwnEffect(d0, open, session, lost0, refused, d, lost)
    ensures d.families <= d0.families && SubLog(d.log, d0.log)
  {}

  lemma NoDropStatement(s: Server, session: nat, rec: Record)
    ensures !MayDrop(s, rec) ==> Serve(s, DropStatement(session, rec)) == s
  {}

  lemma CrashServes(s: Server, boot: nat)
    ensures Serve(s, Event.Crash(boot)) == Crashed(s, boot)
  {}

  lemma NotOnRecord(log: Log, k: Key)
    ensures k !in log ==> forall q :: !IsDrop(log, k, q)
  {}

  lemma CreateServes(s: Server, session: nat, rec: Record, keys: seq<Name>, fate: Fate)
    ensures var t := Serve(s, CreateStatement(session, rec, keys, fate));
      && (!MayCreate(s, rec) ==> t == s)
      && (MayCreate(s, rec) && fate.Succeeds? ==> t == Begun(s, session, rec, keys, true))
      && (MayCreate(s, rec) && fate.Unnoted? ==> t == Begun(s, session, rec, keys, false))
      && (fate.PowerGoes? ==> t == Serve(s, CreateStatement(session, rec, keys, PowerGoes(0, fate.boot))))
  {}

  lemma CrashIdFollows(s: Server, d: Disk, m: Memory, lost: set<Path>, boot: nat)
    requires Follows(s, d, m, lost) && NewBoot(s, boot)
    ensures UnusedBoot(d.log, boot)
  {
    hide BootsKnown, DropsKnown, Intact;
    CrashId(s, d.log, boot);
  }

  lemma CrashIdEffect(s: Server, d: Disk, m: Memory, lost: set<Path>, session: nat, refused: set<Name>,
                      d': Disk, lost': set<Path>, boot: nat)
    requires Follows(s, d, m, lost) && WholeEffect(d, m, session, lost, refused, d', lost') && NewBoot(s, boot)
    ensures UnusedBoot(d'.log, boot)
  {
    hide Follows, WholeEffect;
    FollowsRemoved(s, d, m, lost, session, refused, d', lost');
    CrashId(s, d'.log, boot);
  }

  /** What a crash during a create loses. */
  lemma CutLost(m: Memory, lost: set<Path>, c: Claim, m': Memory, lost': set<Path>, lost'': set<Path>)
    requires (m' == Recorded(m, c) && lost' == lost - {c.rec.path}) || (m' == m && lost' == lost + {c.rec.path})
    requires lost'' == lost' + Unrecorded(m')
    ensures lost'' <= lost + {c.rec.path} + Unrecorded(m)
  {}
}
