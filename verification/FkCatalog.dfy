/**
 The foreign-key catalog: every constraint is stored twice, under a key its child table finds and under
 a key its parent table finds, through creation, rename and drop.
 */
module FkCatalog {
  import opened Bytes
  import opened FkRecord
  import opened Optional

  type Key = seq<byte>
  type Records = map<Key, seq<byte>>

  function CKey(e: Entry): Key {
    ChildKey(e.childCf, e.name)
  }

  function PKey(e: Entry): Key {
    ParentKey(e.parentCf, e.childCf, e.name)
  }

  function KeysOf(e: Entry): set<Key> {
    {CKey(e), PKey(e)}
  }

  /** Lengths that fit the record and family names without NUL. */
  predicate WellNamed(e: Entry) {
    Storable(e) && NoNul(e.childCf) && NoNul(e.parentCf)
  }

  /** A constraint is named by its child table and its name. */
  predicate SameName(e: Entry, f: Entry) {
    e.childCf == f.childCf && e.name == f.name
  }

  predicate Holds(cat: Records, e: Entry) {
    CKey(e) in cat && cat[CKey(e)] == Serialize(e) && PKey(e) in cat && cat[PKey(e)] == Serialize(e)
  }

  /** The records are those of the constraints, each under exactly its two keys, and nothing else. */
  ghost predicate Represents(cs: set<Entry>, cat: Records) {
    && (forall e :: e in cs ==> WellNamed(e) && Holds(cat, e))
    && (forall e, f :: e in cs && f in cs && SameName(e, f) ==> e == f)
    && (forall k :: k in cat ==> Owned(cs, k))
  }

  ghost predicate Owned(cs: set<Entry>, k: Key) {
    exists e :: e in cs && k in KeysOf(e)
  }

  lemma NothingOwned()
    ensures forall k :: !Owned({}, k)
  {}

  lemma Owner(cs: set<Entry>, k: Key) returns (e: Entry)
    requires Owned(cs, k)
    ensures e in cs && k in KeysOf(e)
  {
    e :| e in cs && k in KeysOf(e);
  }

  lemma OwnedBy(cs: set<Entry>, k: Key, e: Entry)
    requires e in cs && k in KeysOf(e)
    ensures Owned(cs, k)
  {}

  lemma KeysApart(e: Entry, f: Entry)
    requires WellNamed(e) && WellNamed(f) && !SameName(e, f)
    ensures KeysOf(e) !! KeysOf(f)
  {
    hide Storable, ChildKey, ParentKey;
    ChildKeysDiffer(e.childCf, e.name, f.childCf, f.name);
    ParentKeysDiffer(e.parentCf, e.childCf, e.name, f.parentCf, f.childCf, f.name);
    SidesDiffer(e.childCf, e.name, f.parentCf, f.childCf, f.name);
    SidesDiffer(f.childCf, f.name, e.parentCf, e.childCf, e.name);
  }

  /** The record under either key tells the constraint, and the key's first byte tells the side. */
  lemma RecordTells(cs: set<Entry>, cat: Records, k: Key) returns (e: Entry)
    requires Represents(cs, cat) && k in cat
    ensures e in cs && k in KeysOf(e) && Deserialize(cat[k]) == Some(e) && k != []
    ensures k[0] == FK_REC_CHILD <==> k == CKey(e)
  {
    hide Storable, ChildKey, ParentKey, Serialize, Deserialize, Owned;
    e := Owner(cs, k);
    assert WellNamed(e) && Holds(cat, e);
    assert Serialize(e) + [] == Serialize(e);
    DeserializeOfSerialized(e, []);
    SidesDiffer(e.childCf, e.name, e.parentCf, e.childCf, e.name);
    NotEmpty(e);
  }

  lemma NotEmpty(e: Entry)
    ensures CKey(e) != [] && PKey(e) != []
  {}

  function Put(cat: Records, e: Entry): Records {
    cat[CKey(e) := Serialize(e)][PKey(e) := Serialize(e)]
  }

  lemma AddOne(cs: set<Entry>, cat: Records, e: Entry)
    requires Represents(cs, cat) && WellNamed(e) && forall f :: f in cs ==> !SameName(e, f)
    ensures Represents(cs + {e}, Put(cat, e))
  {
    hide Storable, CKey, PKey, Serialize, Owned, WellNamed;
    var cat' := Put(cat, e);
    forall f | f in cs ensures Holds(cat', f) {
      assert WellNamed(f) && Holds(cat, f);
      KeysApart(e, f);
      assert CKey(f) in KeysOf(f) && PKey(f) in KeysOf(f);
      assert CKey(e) in KeysOf(e) && PKey(e) in KeysOf(e);
    }
    SidesOfOne(e);
    forall k | k in cat' ensures Owned(cs + {e}, k) {
      if k in cat {
        var f := Owner(cs, k);
        OwnedBy(cs + {e}, k, f);
      } else {
        OwnedBy(cs + {e}, k, e);
      }
    }
  }

  lemma SidesOfOne(e: Entry)
    ensures CKey(e) != PKey(e)
  {
    SidesDiffer(e.childCf, e.name, e.parentCf, e.childCf, e.name);
  }

  /** The records without those under a key of one of the given constraints. */
  ghost predicate Dropped(cat: Records, es: set<Entry>, cat': Records) {
    && (forall k :: k in cat' <==> k in cat && !Owned(es, k))
    && (forall k :: k in cat' ==> cat'[k] == cat[k])
  }

  lemma RemoveSome(cs: set<Entry>, cat: Records, gone: set<Entry>, cat': Records)
    requires Represents(cs, cat) && gone <= cs && Dropped(cat, gone, cat')
    ensures Represents(cs - gone, cat')
  {
    hide Storable, CKey, PKey, Serialize, Owned, WellNamed;
    forall f | f in cs - gone ensures WellNamed(f) && Holds(cat', f) {
      assert WellNamed(f) && Holds(cat, f);
      NotOwned(cs, cat, gone, f);
      assert CKey(f) in KeysOf(f) && PKey(f) in KeysOf(f);
    }
    forall k | k in cat' ensures Owned(cs - gone, k) {
      var f := Owner(cs, k);
      if f in gone { OwnedBy(gone, k, f); }
      OwnedBy(cs - gone, k, f);
    }
  }

  lemma NotOwned(cs: set<Entry>, cat: Records, gone: set<Entry>, f: Entry)
    requires Represents(cs, cat) && gone <= cs && f in cs && f !in gone
    ensures forall k :: k in KeysOf(f) ==> !Owned(gone, k)
  {
    hide CKey, PKey, Owned, WellNamed, Holds, KeysOf;
    forall k | k in KeysOf(f) ensures !Owned(gone, k) {
      if Owned(gone, k) {
        var e := Owner(gone, k);
        SharedKey(cs, cat, e, f, k);
      }
    }
  }

  // ---- rename -----------------------------------------------------------------------------

  datatype Rename = Rename(oldCf: Text, newCf: Text, newDb: Text, newTable: Text)

  predicate Mentions(e: Entry, cf: Text) {
    e.childCf == cf || e.parentCf == cf
  }

  /** The constraint after the rename; a self-reference changes on both sides. */
  function Renamed(e: Entry, r: Rename): Entry {
    var a := if e.childCf == r.oldCf then e.(childCf := r.newCf, childDb := r.newDb, childTable := r.newTable) else e;
    if a.parentCf == r.oldCf then a.(parentCf := r.newCf, refDb := r.newDb, refTable := r.newTable) else a
  }

  /**
   A rename changes a side exactly when it names the table, and leaves every other field as it was; the
   old name is gone.
   */
  lemma RenamedFields(e: Entry, r: Rename)
    ensures var f := Renamed(e, r);
      && (e.childCf == r.oldCf ==> f.childCf == r.newCf && f.childDb == r.newDb && f.childTable == r.newTable)
      && (e.childCf != r.oldCf ==> f.childCf == e.childCf && f.childDb == e.childDb && f.childTable == e.childTable)
      && (e.parentCf == r.oldCf ==> f.parentCf == r.newCf && f.refDb == r.newDb && f.refTable == r.newTable)
      && (e.parentCf != r.oldCf ==> f.parentCf == e.parentCf && f.refDb == e.refDb && f.refTable == e.refTable)
      && f == e.(childCf := f.childCf, childDb := f.childDb, childTable := f.childTable,
                 parentCf := f.parentCf, refDb := f.refDb, refTable := f.refTable)
    ensures r.oldCf != r.newCf ==> !Mentions(Renamed(e, r), r.oldCf)
  {}

  /** Each side of the constraint names the family of its own database and table. */
  predicate InStep(naming: (Text, Text) -> Text, e: Entry) {
    e.childCf == naming(e.childDb, e.childTable) && e.parentCf == naming(e.refDb, e.refTable)
  }

  predicate AllInStep(naming: (Text, Text) -> Text, cs: set<Entry>) {
    forall e :: e in cs ==> InStep(naming, e)
  }

  /** A rename to a family named after the new database and table keeps the names in step. */
  lemma RenamedInStep(naming: (Text, Text) -> Text, e: Entry, r: Rename)
    requires InStep(naming, e) && r.newCf == naming(r.newDb, r.newTable)
    ensures InStep(naming, Renamed(e, r))
  {}

  ghost function AllRenamed(cs: set<Entry>, r: Rename): set<Entry> {
    set e | e in cs :: Renamed(e, r)
  }

  predicate GoodTarget(r: Rename) {
    NoNul(r.newCf) && |r.newCf| < LENGTH_LIMIT && |r.newDb| < LENGTH_LIMIT && |r.newTable| < LENGTH_LIMIT
  }

  lemma RenamedIsWellNamed(e: Entry, r: Rename)
    requires WellNamed(e) && GoodTarget(r)
    ensures WellNamed(Renamed(e, r))
  {
    var f := Renamed(e, r);
    var fs, gs := FieldsOf(e), FieldsOf(f);
    forall i | 0 <= i < 14 ensures Short(gs[i]) {
      assert fs[i] in fs;
    }
  }

  /** Constraints keep their names apart when nothing is named after the target already. */
  lemma RenamedNames(e: Entry, f: Entry, r: Rename)
    requires e.childCf != r.newCf && f.childCf != r.newCf && r.oldCf != r.newCf
    ensures SameName(Renamed(e, r), Renamed(f, r)) <==> SameName(e, f)
    ensures !Mentions(f, r.oldCf) ==> Renamed(f, r) == f
  {}

  /** The order of names: what a list of constraints adds to the records. */
  ghost predicate NewNames(cs: set<Entry>, es: seq<Entry>) {
    && (forall i :: 0 <= i < |es| ==> WellNamed(es[i]))
    && (forall i, f :: 0 <= i < |es| && f in cs ==> !SameName(es[i], f))
    && (forall i, j :: 0 <= i < j < |es| ==> !SameName(es[i], es[j]))
  }

  function Members(es: seq<Entry>): set<Entry> {
    set e | e in es
  }

  lemma RenamedAll(naming: (Text, Text) -> Text, cs: set<Entry>, r: Rename)
    requires r.oldCf != r.newCf
    ensures forall e :: e in AllRenamed(cs, r) ==> e.childCf != r.oldCf && e.parentCf != r.oldCf
    ensures AllInStep(naming, cs) && r.newCf == naming(r.newDb, r.newTable) ==> AllInStep(naming, AllRenamed(cs, r))
  {
    hide Renamed, InStep;
    forall e | e in cs ensures !Mentions(Renamed(e, r), r.oldCf) {
      RenamedFields(e, r);
    }
    if AllInStep(naming, cs) && r.newCf == naming(r.newDb, r.newTable) {
      forall e | e in cs ensures InStep(naming, Renamed(e, r)) {
        RenamedInStep(naming, e, r);
      }
    }
  }

  class Catalog {
    var records: Records
    /** The constraints the catalog stands for. */
    ghost var constraints: set<Entry>

    ghost predicate Valid()
      reads this
    {
      Represents(constraints, records)
    }

    constructor ()
      ensures Valid() && constraints == {}
    {
      records, constraints := map[], {};
    }

    /** The put loop of fk_persist_defs and fk_rename_catalog. */
    static method PutAll(cat: Records, es: seq<Entry>, ghost cs: set<Entry>) returns (cat': Records)
      requires Represents(cs, cat) && NewNames(cs, es)
      ensures Represents(cs + Members(es), cat')
    {
      hide Represents, WellNamed;
      cat' := cat;
      assert cs + Members(es[..0]) == cs;
      for i := 0 to |es|
        invariant Represents(cs + Members(es[..i]), cat')
      {
        assert Members(es[..i + 1]) == Members(es[..i]) + {es[i]};
        forall f | f in cs + Members(es[..i]) ensures !SameName(es[i], f) {
          if f !in cs {
            var j :| 0 <= j < i && es[j] == f;
            assert !SameName(es[j], es[i]);
          }
        }
        AddOne(cs + Members(es[..i]), cat', es[i]);
        assert cs + Members(es[..i]) + {es[i]} == cs + Members(es[..i + 1]);
        cat' := Put(cat', es[i]);
      }
      assert es[..|es|] == es;
    }

    /** The catalog writes of fk_persist_defs, in one transaction. */
    method Persist(es: seq<Entry>, refused: bool) returns (ok: bool)
      requires Valid() && NewNames(constraints, es)
      modifies this
      ensures Valid() && ok == !refused
      ensures constraints == if ok then old(constraints) + Members(es) else old(constraints)
    {
      hide Represents;
      var cat := PutAll(records, es, constraints);
      if refused { return false; }
      records, constraints := cat, constraints + Members(es);
      return true;
    }

    /** fk_purge_catalog: collect every record that names the family on either side, then delete them. */
    method Purge(cf: Text, refused: bool)
      requires Valid()
      modifies this
      ensures Valid()
      ensures constraints ==
        if refused then old(constraints) else set e | e in old(constraints) && e.childCf != cf && e.parentCf != cf
    {
      hide Deserialize, Mentions, KeysOf, Represents, Owned;
      var doomed: set<Key> := {};
      var rest := records.Keys;
      while rest != {}
        modifies {}
        invariant rest <= records.Keys
        invariant forall k :: k in doomed <==> k in records && k !in rest && NamesFamily(records[k], cf)
        decreases |rest|
      {
        var k :| k in rest;
        rest := rest - {k};
        var e := ReadRecord(records[k]);
        if e.Some? && Mentions(e.value, cf) {
          doomed := doomed + {k};
        }
      }
      if refused { return; }
      ghost var gone := set e | e in constraints && Mentions(e, cf);
      PurgedKeys(constraints, records, cf, gone, doomed);
      RemoveSome(constraints, records, gone, records - doomed);
      records := records - doomed;
      constraints := constraints - gone;
      NotMentioned(old(constraints), cf);
    }

    /** fk_rename_catalog: all stale keys go before any new record is written. */
    method RenameTable(r: Rename, refused: bool, ghost naming: (Text, Text) -> Text) returns (ok: bool)
      requires Valid() && GoodTarget(r)
      requires r.oldCf != r.newCf ==> forall e :: e in constraints ==> e.childCf != r.newCf
      modifies this
      ensures Valid() && (ok <==> r.oldCf == r.newCf || !refused)
      ensures constraints == if ok && r.oldCf != r.newCf then AllRenamed(old(constraints), r) else old(constraints)
      ensures ok && r.oldCf != r.newCf ==>
        forall e :: e in constraints ==> e.childCf != r.oldCf && e.parentCf != r.oldCf
      ensures old(AllInStep(naming, constraints)) && r.newCf == naming(r.newDb, r.newTable) ==>
        AllInStep(naming, constraints)
    {
      hide Deserialize, Mentions, KeysOf, Renamed, WellNamed, Represents, Owned, CKey, PKey;
      if r.oldCf == r.newCf {
        return true;
      }
      var stale: set<Key> := {};
      var moved: seq<Entry> := [];
      ghost var found: seq<Entry> := [];
      var rest := records.Keys;
      AllVisited(constraints, records);
      NothingOwned();
      assert Members(found) == {};
      while rest != {}
        modifies {}
        invariant rest <= records.Keys
        invariant forall i, j :: 0 <= i < j < |found| ==> found[i] != found[j]
        invariant forall e :: e in found <==> e in constraints && Mentions(e, r.oldCf) && CKey(e) !in rest
        invariant |moved| == |found| && forall i :: 0 <= i < |found| ==> moved[i] == Renamed(found[i], r)
        invariant forall k :: k in stale <==> Owned(Members(found), k)
        decreases |rest|
      {
        var k :| k in rest;
        ghost var e0 := RecordTells(constraints, records, k);
        OwnKeys(constraints, records, k, e0);
        rest := rest - {k};
        var e := ReadRecord(records[k]);
        if |k| > 0 && k[0] == FK_REC_CHILD && e.Some? && Mentions(e.value, r.oldCf) {
          OwnedSnoc(found, e.value);
          stale := stale + {CKey(e.value), PKey(e.value)};
          moved := moved + [Renamed(e.value, r)];
          found := found + [e.value];
        }
      }
      ghost var gone := Members(found);
      assert gone == set e | e in constraints && Mentions(e, r.oldCf);
      RemoveSome(constraints, records, gone, records - stale);
      MovedNames(constraints, records, r, found, moved);
      var cat := PutAll(records - stale, moved, constraints - gone);
      RenamedSet(constraints, r, gone, found, moved);
      if refused { return false; }
      RenamedAll(naming, constraints, r);
      records, constraints := cat, AllRenamed(constraints, r);
      return true;
    }

    /** fk_load: the constraints of one table, by side. */
    method Load(self: Text) returns (asChild: seq<Entry>, asParent: seq<Entry>)
      requires Valid()
      ensures Once(asChild) && forall e :: e in asChild <==> e in constraints && e.childCf == self
      ensures Once(asParent) && forall e :: e in asParent <==> e in constraints && e.parentCf == self
    {
      hide Deserialize, KeysOf, WellNamed, Represents, CKey, Owned;
      asChild, asParent := [], [];
      var rest := records.Keys;
      AllVisited(constraints, records);
      while rest != {}
        invariant rest <= records.Keys && Once(asChild) && Once(asParent)
        invariant forall e :: e in asChild <==> e in constraints && e.childCf == self && CKey(e) !in rest
        invariant forall e :: e in asParent <==> e in constraints && e.parentCf == self && CKey(e) !in rest
        decreases |rest|
      {
        var k :| k in rest;
        ghost var e0 := RecordTells(constraints, records, k);
        OwnKeys(constraints, records, k, e0);
        rest := rest - {k};
        if |k| > 0 && k[0] == FK_REC_CHILD {
          var e := ReadRecord(records[k]);
          if e.Some? {
            if e.value.childCf == self { asChild := asChild + [e.value]; }
            if e.value.parentCf == self { asParent := asParent + [e.value]; }
          }
        }
      }
    }
  }

  // ---- whole runs -------------------------------------------------------------------------

  datatype Change =
    | Create(es: seq<Entry>, refused: bool)
    | Drop(cf: Text, refused: bool)
    | Move(r: Rename, refused: bool)

  /** New constraints have new names, and a table is not renamed onto one that has constraints. */
  ghost predicate Allowed(cs: set<Entry>, c: Change) {
    match c
    case Create(es, _) => NewNames(cs, es)
    case Drop(_, _) => true
    case Move(r, _) => GoodTarget(r) && (r.oldCf != r.newCf ==> forall e :: e in cs ==> e.childCf != r.newCf)
  }

  ghost function After(cs: set<Entry>, c: Change): set<Entry> {
    match c
    case Create(es, refused) => if refused then cs else cs + Members(es)
    case Drop(cf, refused) => if refused then cs else set e | e in cs && e.childCf != cf && e.parentCf != cf
    case Move(r, refused) => if refused || r.oldCf == r.newCf then cs else AllRenamed(cs, r)
  }

  ghost function AfterAll(cs: set<Entry>, changes: seq<Change>): set<Entry>
    decreases |changes|
  {
    if changes == [] then cs else AfterAll(After(cs, changes[0]), changes[1..])
  }

  ghost predicate AllAllowed(cs: set<Entry>, changes: seq<Change>)
    decreases |changes|
  {
    changes == [] || (Allowed(cs, changes[0]) && AllAllowed(After(cs, changes[0]), changes[1..]))
  }

  /** The change brings names that are in step. */
  predicate NamedBy(naming: (Text, Text) -> Text, c: Change) {
    match c
    case Create(es, _) => forall i :: 0 <= i < |es| ==> InStep(naming, es[i])
    case Drop(_, _) => true
    case Move(r, _) => r.newCf == naming(r.newDb, r.newTable)
  }

  predicate AllNamedBy(naming: (Text, Text) -> Text, changes: seq<Change>) {
    forall i :: 0 <= i < |changes| ==> NamedBy(naming, changes[i])
  }

  lemma StaysInStep(naming: (Text, Text) -> Text, cs: set<Entry>, c: Change)
    requires AllInStep(naming, cs) && NamedBy(naming, c)
    ensures AllInStep(naming, After(cs, c))
  {
    hide InStep, Renamed;
    if c.Move? {
      forall e | e in cs ensures InStep(naming, Renamed(e, c.r)) {
        RenamedInStep(naming, e, c.r);
      }
    }
  }

  /**
   Any run of creations, drops and renames leaves each constraint under exactly its two keys, and for any
   way of naming families after databases and tables it keeps the names of each side in step.
   */
  method RunChanges(c: Catalog, changes: seq<Change>, ghost naming: (Text, Text) -> Text)
    requires c.Valid() && AllAllowed(c.constraints, changes)
    modifies c
    ensures c.Valid() && c.constraints == AfterAll(old(c.constraints), changes)
    ensures old(AllInStep(naming, c.constraints)) && AllNamedBy(naming, changes) ==> AllInStep(naming, c.constraints)
    decreases |changes|
  {
    hide Represents, NewNames, AllRenamed, AllInStep, NamedBy;
    if |changes| > 0 {
      match changes[0] {
        case Create(es, refused) => var _ := c.Persist(es, refused);
        case Drop(cf, refused) => c.Purge(cf, refused);
        case Move(r, refused) => var _ := c.RenameTable(r, refused, naming);
      }
      if AllInStep(naming, old(c.constraints)) && NamedBy(naming, changes[0]) {
        StaysInStep(naming, old(c.constraints), changes[0]);
      }
      assert forall i :: 0 <= i < |changes[1..]| ==> changes[1..][i] == changes[i + 1];
      RunChanges(c, changes[1..], naming);
    }
  }

  // ---- names of unnamed constraints -------------------------------------------------------

  const NAME_BUFFER: nat := 64

  function Cut(s: Text, n: nat): Text {
    if |s| > n then s[..n] else s
  }

  /** The name an unnamed constraint gets: table, "_ibfk_" and a number, cut to the buffer. */
  function AnonymousName(table: Text, number: Text): Text {
    Cut(table + [95, 105, 98, 102, 107, 95] + number, NAME_BUFFER - 1)
  }

  /** What the buffer has left for the number. */
  function Room(table: Text): nat {
    if |table| + 6 < NAME_BUFFER - 1 then NAME_BUFFER - 1 - (|table| + 6) else 0
  }

  /**
   Two unnamed constraints of a table get the same name exactly when their numbers agree in what the
   buffer has room for.
   */
  lemma AnonymousNamesClash(table: Text, a: Text, b: Text)
    ensures AnonymousName(table, a) == AnonymousName(table, b) <==> Cut(a, Room(table)) == Cut(b, Room(table))
  {
    var h: Text := table + [95, 105, 98, 102, 107, 95];
    CutAppended(h, a, NAME_BUFFER - 1);
    CutAppended(h, b, NAME_BUFFER - 1);
    var room := Room(table);
    var p := Cut(h, NAME_BUFFER - 1);
    var x, y := Cut(a, room), Cut(b, room);
    assert (p + x)[|p|..] == x && (p + y)[|p|..] == y;
  }

  /**
   Of two constraints of one name only the later is left under the child key, so the earlier one is no
   longer in the catalog; when the parents differ, the earlier parent still lists it.
   */
  lemma LaterNameWins(cat: Records, e: Entry, f: Entry)
    requires WellNamed(e) && WellNamed(f) && SameName(e, f) && e != f
    ensures var both := Put(Put(cat, e), f);
      && CKey(e) == CKey(f) && Holds(both, f) && Deserialize(both[CKey(e)]) == Some(f) && !Holds(both, e)
      && (e.parentCf != f.parentCf ==> PKey(e) in both && Deserialize(both[PKey(e)]) == Some(e))
  {
    hide Serialize, Deserialize, Storable, ChildKey, ParentKey;
    DeserializeOfSerialized(e, []);
    DeserializeOfSerialized(f, []);
    assert Serialize(e) + [] == Serialize(e) && Serialize(f) + [] == Serialize(f);
    ParentKeysDiffer(e.parentCf, e.childCf, e.name, f.parentCf, f.childCf, f.name);
    SidesDiffer(e.childCf, e.name, f.parentCf, f.childCf, f.name);
    SidesDiffer(f.childCf, f.name, e.parentCf, e.childCf, e.name);
  }

  lemma CutAppended(h: Text, a: Text, n: nat)
    ensures Cut(h + a, n) == Cut(h, n) + Cut(a, if |h| < n then n - |h| else 0)
  {}

  predicate Once(es: seq<Entry>) {
    forall i, j :: 0 <= i < j < |es| ==> es[i] != es[j]
  }

  predicate NamesFamily(v: seq<byte>, cf: Text) {
    Deserialize(v).Some? && Mentions(Deserialize(v).value, cf)
  }

  lemma NotMentioned(cs: set<Entry>, cf: Text)
    ensures cs - (set e | e in cs && Mentions(e, cf)) == set e | e in cs && e.childCf != cf && e.parentCf != cf
  {}

  lemma PurgedKeys(cs: set<Entry>, cat: Records, cf: Text, gone: set<Entry>, doomed: set<Key>)
    requires Represents(cs, cat) && gone == set e | e in cs && Mentions(e, cf)
    requires forall k :: k in doomed <==> k in cat && NamesFamily(cat[k], cf)
    ensures Dropped(cat, gone, cat - doomed)
  {
    hide Deserialize, Mentions, WellNamed, CKey, PKey, Owned, Represents, KeysOf;
    forall k | k in cat ensures k in doomed <==> Owned(gone, k) {
      var e := RecordTells(cs, cat, k);
      if k in doomed {
        OwnedBy(gone, k, e);
      }
      if Owned(gone, k) {
        var f := Owner(gone, k);
        SharedKey(cs, cat, e, f, k);
      }
    }
  }

  lemma SharedKey(cs: set<Entry>, cat: Records, e: Entry, f: Entry, k: Key)
    requires Represents(cs, cat) && e in cs && f in cs && k in KeysOf(e) && k in KeysOf(f)
    ensures e == f
  {
    hide KeysOf, WellNamed, Holds, Owned;
    if !SameName(e, f) {
      assert WellNamed(e) && WellNamed(f);
      KeysApart(e, f);
    }
  }

  /** A child key belongs to one constraint only. */
  lemma OwnKeys(cs: set<Entry>, cat: Records, k: Key, e: Entry)
    requires Represents(cs, cat) && e in cs && k in KeysOf(e)
    ensures forall f :: f in cs && CKey(f) == k ==> f == e
    ensures CKey(e) in cat
  {
    hide WellNamed, CKey, PKey, Owned;
    assert Holds(cat, e);
    forall f | f in cs && CKey(f) == k ensures f == e {
      assert k in KeysOf(f);
      SharedKey(cs, cat, e, f, k);
    }
  }

  lemma AllVisited(cs: set<Entry>, cat: Records)
    requires Represents(cs, cat)
    ensures forall e :: e in cs ==> CKey(e) in cat
  {
    forall e | e in cs ensures CKey(e) in cat {
      assert Holds(cat, e);
    }
  }

  lemma OwnedSnoc(es: seq<Entry>, e: Entry)
    ensures forall k :: Owned(Members(es + [e]), k) <==> Owned(Members(es), k) || k == CKey(e) || k == PKey(e)
  {
    hide CKey, PKey, Owned;
    var es' := es + [e];
    assert Members(es') == Members(es) + {e};
    forall k ensures Owned(Members(es'), k) <==> Owned(Members(es), k) || k == CKey(e) || k == PKey(e) {
      if Owned(Members(es'), k) {
        var f := Owner(Members(es'), k);
        if f != e { OwnedBy(Members(es), k, f); }
      }
      if Owned(Members(es), k) {
        var f := Owner(Members(es), k);
        OwnedBy(Members(es'), k, f);
      }
      if k in KeysOf(e) { OwnedBy(Members(es'), k, e); }
    }
  }

  lemma MovedNames(cs: set<Entry>, cat: Records, r: Rename, found: seq<Entry>, moved: seq<Entry>)
    requires Represents(cs, cat) && GoodTarget(r) && r.oldCf != r.newCf
    requires forall e :: e in cs ==> e.childCf != r.newCf
    requires forall e :: e in found <==> e in cs && Mentions(e, r.oldCf)
    requires Once(found) && |moved| == |found| && forall i :: 0 <= i < |found| ==> moved[i] == Renamed(found[i], r)
    ensures NewNames(cs - Members(found), moved)
  {
    hide WellNamed, Renamed, Holds, Mentions, SameName, Owned;
    forall i | 0 <= i < |moved| ensures WellNamed(moved[i]) {
      assert found[i] in found;
      RenamedIsWellNamed(found[i], r);
    }
    forall i, f | 0 <= i < |moved| && f in cs - Members(found) ensures !SameName(moved[i], f) {
      assert found[i] in found;
      RenamedNames(found[i], f, r);
    }
    forall i, j | 0 <= i < j < |moved| ensures !SameName(moved[i], moved[j]) {
      assert found[i] in found && found[j] in found;
      RenamedNames(found[i], found[j], r);
    }
  }

  lemma RenamedSet(cs: set<Entry>, r: Rename, gone: set<Entry>, found: seq<Entry>, moved: seq<Entry>)
    requires gone == Members(found) && gone == set e | e in cs && Mentions(e, r.oldCf)
    requires |moved| == |found| && forall i :: 0 <= i < |found| ==> moved[i] == Renamed(found[i], r)
    requires r.oldCf != r.newCf && forall e :: e in cs ==> e.childCf != r.newCf
    ensures AllRenamed(cs, r) == cs - gone + Members(moved)
  {
    hide Renamed;
    forall e | e in cs && e !in gone ensures Renamed(e, r) == e {
      RenamedNames(e, e, r);
    }
    var a, b := AllRenamed(cs, r), cs - gone + Members(moved);
    forall x | x in a ensures x in b {
      var e :| e in cs && x == Renamed(e, r);
      if e in gone {
        var i :| 0 <= i < |found| && found[i] == e;
        assert moved[i] == x;
      }
    }
    forall x | x in b ensures x in a {
      if x in Members(moved) {
        var i :| 0 <= i < |moved| && moved[i] == x;
        assert found[i] in gone;
      } else {
        assert x == Renamed(x, r);
      }
    }
  }
}
