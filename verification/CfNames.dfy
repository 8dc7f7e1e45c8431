/**
 The names of a table's column families. A table's main family is its database and table joined by two
 underscores; the family of an index adds "__idx_" and the name of the key. Removal goes by these names:
 it takes the main family and every family whose name begins with the main one's and "__idx_".
 */
module CfNames {
  import opened Bytes

  type Path = seq<byte>
  type Name = seq<byte>

  const SLASH: byte := 47
  const UNDERSCORE: byte := 95
  const TEMP_NAME_MARKER: byte := 35
  const REL_PATH_PREFIX: Path := [46, SLASH]
  /** "__" */
  const DB_TABLE_SEP: Name := [UNDERSCORE, UNDERSCORE]
  /** "__idx_" */
  const CF_INDEX_INFIX: Name := [UNDERSCORE, UNDERSCORE, 105, 100, 120, UNDERSCORE]

  // ---- paths and names --------------------------------------------------------------------

  datatype TablePath = TablePath(db: Name, table: Name, hasDir: bool)

  /** The place of the last slash, or -1. */
  function LastSlash(p: Path): (i: int)
    ensures -1 <= i < |p| && (i >= 0 ==> p[i] == SLASH)
    ensures forall j :: i < j < |p| ==> p[j] != SLASH
  {
    if p == [] then -1
    else if p[|p| - 1] == SLASH then |p| - 1
    else LastSlash(p[..|p| - 1])
  }

  /** split_table_path */
  function SplitPath(path: Path): TablePath {
    var p := if REL_PATH_PREFIX <= path then path[2..] else path;
    var last := LastSlash(p);
    if last < 0 then TablePath([], p, false)
    else TablePath(p[LastSlash(p[..last]) + 1..last], p[last + 1..], true)
  }

  function MarkOne(b: byte): byte {
    if b == TEMP_NAME_MARKER then UNDERSCORE else b
  }

  /** The name with every temporary-table marker replaced. */
  function Marked(s: Name): (r: Name)
    ensures |r| == |s| && forall i :: 0 <= i < |s| ==> r[i] == MarkOne(s[i])
  {
    if s == [] then [] else [MarkOne(s[0])] + Marked(s[1..])
  }

  /** The name of a table's main family. */
  function CfName(path: Path): Name {
    var tp := SplitPath(path);
    if tp.hasDir then Marked(tp.db + DB_TABLE_SEP + tp.table) else tp.table
  }

  /** to_cf_name */
  method ToCfName(path: Path) returns (name: Name)
    ensures name == CfName(path)
  {
    var tp := SplitPath(path);
    if !tp.hasDir { return tp.table; }
    var result := tp.db + DB_TABLE_SEP + tp.table;
    name := result;
    for i := 0 to |name|
      invariant |name| == |result|
      invariant forall j :: 0 <= j < i ==> name[j] == MarkOne(result[j])
      invariant forall j :: i <= j < |name| ==> name[j] == result[j]
    {
      if name[i] == TEMP_NAME_MARKER { name := name[i := UNDERSCORE]; }
    }
    assert name == Marked(result);
  }

  function IndexName(path: Path, key: Name): Name {
    CfName(path) + CF_INDEX_INFIX + key
  }

  /** The families of a table with the given keys, in the order create makes them. */
  function FamilyNames(path: Path, keys: seq<Name>): (names: seq<Name>)
    ensures |names| == |keys| + 1
  {
    [CfName(path)] + seq(|keys|, i requires 0 <= i < |keys| => IndexName(path, keys[i]))
  }

  /** The family is one a removal of the path takes. */
  predicate Matches(path: Path, name: Name) {
    name == CfName(path) || CfName(path) + CF_INDEX_INFIX <= name
  }

  lemma OwnNamesMatch(path: Path, keys: seq<Name>)
    ensures forall n :: n in FamilyNames(path, keys) ==> Matches(path, n)
  {
    hide CfName;
  }

  // ---- tables in each other's way ---------------------------------------------------------

  /** A removal of path p takes a family of the table q. */
  predicate Crosses(p: Path, q: Path, keys: seq<Name>) {
    exists n :: n in FamilyNames(q, keys) && Matches(p, n)
  }

  /** The table's storage is all there. */
  predicate Whole(families: set<Name>, q: Path, keys: seq<Name>) {
    forall n :: n in FamilyNames(q, keys) ==> n in families
  }

  /** The families a removal of the path leaves, of which the library may refuse some. */
  function Without(families: set<Name>, refused: set<Name>, p: Path): set<Name> {
    set n | n in families && (!Matches(p, n) || n in refused)
  }

  /** A table keeps its storage through the removal of a path exactly when none of its names is matched. */
  lemma KeepsStorageIff(families: set<Name>, p: Path, q: Path, keys: seq<Name>)
    requires Whole(families, q, keys)
    ensures Whole(Without(families, {}, p), q, keys) <==> !Crosses(p, q, keys)
  {
    hide Matches, FamilyNames;
  }

  /** In terms of the two tables' own names. */
  lemma CrossesByName(p: Path, q: Path, keys: seq<Name>)
    ensures Crosses(p, q, keys) <==>
      || CfName(q) == CfName(p)
      || CfName(p) + CF_INDEX_INFIX <= CfName(q)
      || exists i :: 0 <= i < |keys| &&
           (IndexName(q, keys[i]) == CfName(p) || CfName(p) + CF_INDEX_INFIX <= IndexName(q, keys[i]))
  {
    hide CfName, IndexName;
    var names := FamilyNames(q, keys);
    assert names[0] == CfName(q) && names[0] in names;
    if Crosses(p, q, keys) {
      var n :| n in names && Matches(p, n);
      var j :| 0 <= j < |names| && names[j] == n;
      assert j > 0 ==> n == IndexName(q, keys[j - 1]);
    }
    forall i | 0 <= i < |keys| ensures IndexName(q, keys[i]) in names {
      assert names[i + 1] == IndexName(q, keys[i]);
    }
  }

  predicate NoSlash(s: Name) {
    forall i :: 0 <= i < |s| ==> s[i] != SLASH
  }

  lemma {:induction false} LastSlashIs(p: Path, i: int)
    requires -1 <= i < |p| && (i >= 0 ==> p[i] == SLASH) && forall j :: i < j < |p| ==> p[j] != SLASH
    ensures LastSlash(p) == i
  {}

  function RelPath(db: Name, table: Name): Path {
    REL_PATH_PREFIX + db + [SLASH] + table
  }

  lemma CfNameOfTable(db: Name, table: Name)
    requires NoSlash(db) && NoSlash(table)
    ensures SplitPath(RelPath(db, table)) == TablePath(db, table, true)
    ensures CfName(RelPath(db, table)) == Marked(db + DB_TABLE_SEP + table)
  {
    hide LastSlash, Marked;
    var p := db + [SLASH] + table;
    RelPathTail(db, table);
    SlashBetween(db, table);
    assert p[..|db|] == db && p[|db| + 1..] == table && db[0..|db|] == db;
  }

  lemma RelPathTail(db: Name, table: Name)
    ensures REL_PATH_PREFIX <= RelPath(db, table) && RelPath(db, table)[2..] == db + [SLASH] + table
  {}

  lemma SlashBetween(db: Name, table: Name)
    requires NoSlash(db) && NoSlash(table)
    ensures LastSlash(db + [SLASH] + table) == |db| && LastSlash(db) == -1
  {
    hide LastSlash;
    LastSlashIs(db + [SLASH] + table, |db|);
    LastSlashIs(db, -1);
  }

  /** Below any directory, a table is named after the last directory and the file, whatever is above. */
  lemma CfNameBelow(dir: Path, db: Name, table: Name)
    requires NoSlash(db) && NoSlash(table)
    ensures SplitPath(dir + [SLASH] + db + [SLASH] + table) == TablePath(db, table, true)
  {
    hide LastSlash;
    var path := dir + [SLASH] + db + [SLASH] + table;
    if REL_PATH_PREFIX <= path {
      assert path[0] == 46 && path[1] == SLASH && dir != [] && dir[0] == 46;
      if |dir| == 1 {
        assert path == RelPath(db, table);
        CfNameOfTable(db, table);
      } else {
        assert path[2..] == dir[2..] + [SLASH] + db + [SLASH] + table;
        LastTwoSlashes(dir[2..], db, table);
      }
    } else {
      LastTwoSlashes(dir, db, table);
    }
  }

  lemma LastTwoSlashes(dir: Path, db: Name, table: Name)
    requires NoSlash(db) && NoSlash(table)
    ensures var p, last := dir + [SLASH] + db + [SLASH] + table, |dir| + 1 + |db|;
      && LastSlash(p) == last && LastSlash(p[..last]) == |dir|
      && p[|dir| + 1..last] == db && p[last + 1..] == table
  {
    hide LastSlash;
    var p, last := dir + [SLASH] + db + [SLASH] + table, |dir| + 1 + |db|;
    LastSlashIs(p, last);
    assert p[..last] == dir + [SLASH] + db;
    LastSlashIs(p[..last], |dir|);
  }

  /** A file in no directory is its own family's name, markers and all. */
  lemma CfNameOfFile(table: Name)
    requires NoSlash(table)
    ensures CfName(table) == table && CfName(REL_PATH_PREFIX + table) == table
  {
    hide LastSlash;
    LastSlashIs(table, -1);
    assert REL_PATH_PREFIX[1] == SLASH;
    assert (REL_PATH_PREFIX + table)[2..] == table;
  }

  lemma MarkedConcat(a: Name, b: Name)
    ensures Marked(a + b) == Marked(a) + Marked(b)
  {}

  /** A table named like the index of another: dropping the other takes it whole. */
  lemma IndexLikeTableIsTaken(db: Name, table: Name, suffix: Name, keys: seq<Name>)
    requires NoSlash(db) && NoSlash(table) && NoSlash(suffix)
    ensures var p, q := RelPath(db, table), RelPath(db, table + CF_INDEX_INFIX + suffix);
      p != q && Crosses(p, q, keys) && forall n :: n in FamilyNames(q, keys) ==> Matches(p, n)
  {
    hide SplitPath, Matches, Crosses, FamilyNames;
    var t := table + CF_INDEX_INFIX + suffix;
    var p, q := RelPath(db, table), RelPath(db, t);
    assert |q| > |p|;
    LongerName(db, table, suffix);
    StartsWith(p, q, keys);
  }

  lemma LongerName(db: Name, table: Name, suffix: Name)
    requires NoSlash(db) && NoSlash(table) && NoSlash(suffix)
    ensures CfName(RelPath(db, table + CF_INDEX_INFIX + suffix)) ==
      CfName(RelPath(db, table)) + CF_INDEX_INFIX + Marked(suffix)
  {
    hide SplitPath, CfName, RelPath, Marked;
    var a, t := db + DB_TABLE_SEP + table, table + CF_INDEX_INFIX + suffix;
    NoSlashConcat(table, suffix);
    CfNameOfTable(db, table);
    CfNameOfTable(db, t);
    assert db + DB_TABLE_SEP + t == (a + CF_INDEX_INFIX) + suffix;
    MarkedConcat(a + CF_INDEX_INFIX, suffix);
    MarkedConcat(a, CF_INDEX_INFIX);
    MarkedInfix();
  }

  lemma NoSlashConcat(table: Name, suffix: Name)
    requires NoSlash(table) && NoSlash(suffix)
    ensures NoSlash(table + CF_INDEX_INFIX + suffix)
  {}

  lemma MarkedInfix()
    ensures Marked(CF_INDEX_INFIX) == CF_INDEX_INFIX && Marked(DB_TABLE_SEP) == DB_TABLE_SEP
  {}

  lemma StartsWith(p: Path, q: Path, keys: seq<Name>)
    requires CfName(p) + CF_INDEX_INFIX <= CfName(q)
    ensures Crosses(p, q, keys) && forall n :: n in FamilyNames(q, keys) ==> Matches(p, n)
  {
    hide CfName;
    var names := FamilyNames(q, keys);
    forall n | n in names ensures Matches(p, n) {
      var i :| 0 <= i < |names| && names[i] == n;
      assert CfName(q) <= n;
    }
    assert names[0] in names;
  }

  /** Two tables of different databases can have one name. */
  lemma NamesCollide(a: Name, b: Name, c: Name)
    requires NoSlash(a) && NoSlash(b) && NoSlash(c)
    ensures CfName(RelPath(a, b + DB_TABLE_SEP + c)) == CfName(RelPath(a + DB_TABLE_SEP + b, c))
  {
    hide SplitPath, CfName, RelPath, Marked;
    CfNameOfTable(a, b + DB_TABLE_SEP + c);
    CfNameOfTable(a + DB_TABLE_SEP + b, c);
    assert a + DB_TABLE_SEP + (b + DB_TABLE_SEP + c) == a + DB_TABLE_SEP + b + DB_TABLE_SEP + c;
  }

  // ---- names that are never in each other's way -------------------------------------------

  /** No two underscores in a row, and none at the end. */
  predicate Plain(s: Name) {
    && (forall i :: 0 <= i < |s| - 1 ==> !(s[i] == UNDERSCORE && s[i + 1] == UNDERSCORE))
    && (s != [] ==> s[|s| - 1] != UNDERSCORE)
  }

  predicate PlainPath(p: Path) {
    SplitPath(p).hasDir && Plain(Marked(SplitPath(p).db)) && Plain(Marked(SplitPath(p).table))
  }

  lemma NoSepBefore(a: Name, x: Name)
    requires Plain(a)
    ensures var s := a + DB_TABLE_SEP + x;
      forall i {:trigger s[i]} :: 0 <= i < |a| ==> s[i] != UNDERSCORE || s[i + 1] != UNDERSCORE
  {
    var s := a + DB_TABLE_SEP + x;
    forall i {:trigger s[i]} | 0 <= i < |a| ensures s[i] != UNDERSCORE || s[i + 1] != UNDERSCORE {
      assert s[i] == a[i] && (i + 1 < |a| ==> s[i + 1] == a[i + 1]);
    }
  }

  /** Plain texts are told apart by the first two underscores after them. */
  lemma SplitAtSep(a: Name, x: Name, b: Name, y: Name)
    requires Plain(a) && Plain(b) && a + DB_TABLE_SEP + x <= b + DB_TABLE_SEP + y
    ensures a == b && x <= y
  {
    var s, t := a + DB_TABLE_SEP + x, b + DB_TABLE_SEP + y;
    assert s[|a|] == UNDERSCORE && s[|a| + 1] == UNDERSCORE;
    assert t[|b|] == UNDERSCORE && t[|b| + 1] == UNDERSCORE;
    NoSepBefore(a, x);
    NoSepBefore(b, y);
    assert a == s[..|a|] == t[..|b|] == b;
    assert x == s[|a| + 2..] && y == t[|b| + 2..];
  }

  lemma NoSepInside(t: Name, x: Name)
    requires Plain(t)
    ensures !(x + DB_TABLE_SEP <= t)
  {
    var s := x + DB_TABLE_SEP;
    assert s[|x|] == UNDERSCORE && s[|x| + 1] == UNDERSCORE;
    assert |t| >= |x| + 2 ==> t[|x|] != s[|x|] || t[|x| + 1] != s[|x| + 1];
  }

  lemma PlainName(p: Path)
    requires PlainPath(p)
    ensures CfName(p) == Marked(SplitPath(p).db) + DB_TABLE_SEP + Marked(SplitPath(p).table)
  {
    var tp := SplitPath(p);
    MarkedConcat(tp.db + DB_TABLE_SEP, tp.table);
    MarkedConcat(tp.db, DB_TABLE_SEP);
    MarkedInfix();
  }

  /** A name begins like a plain one only when it is built on it. */
  lemma PlainBegins(d: Name, t: Name, e: Name, u: Name, z: Name)
    requires Plain(d) && Plain(t) && Plain(e) && Plain(u)
    ensures d + DB_TABLE_SEP + t + CF_INDEX_INFIX <= e + DB_TABLE_SEP + (u + z) && (z == [] || CF_INDEX_INFIX <= z) ==>
      d == e && t == u
  {
    var tail: Name := [105, 100, 120, UNDERSCORE];
    assert CF_INDEX_INFIX == DB_TABLE_SEP + tail;
    if d + DB_TABLE_SEP + t + CF_INDEX_INFIX <= e + DB_TABLE_SEP + (u + z) && (z == [] || CF_INDEX_INFIX <= z) {
      assert d + DB_TABLE_SEP + t + CF_INDEX_INFIX == d + DB_TABLE_SEP + (t + CF_INDEX_INFIX);
      SplitAtSep(d, t + CF_INDEX_INFIX, e, u + z);
      if z == [] {
        assert u + z == u;
        assert t + DB_TABLE_SEP <= t + CF_INDEX_INFIX;
        NoSepInside(u, t);
      } else {
        assert t + CF_INDEX_INFIX == t + DB_TABLE_SEP + tail;
        assert u + z == u + DB_TABLE_SEP + z[2..];
        SplitAtSep(t, tail, u, z[2..]);
      }
    }
  }

  lemma PlainEquals(d: Name, t: Name, e: Name, u: Name, z: Name)
    requires Plain(d) && Plain(t) && Plain(e) && Plain(u) && (z == [] || CF_INDEX_INFIX <= z)
    ensures d + DB_TABLE_SEP + t == e + DB_TABLE_SEP + (u + z) ==> d == e && t == u && z == []
  {
    if d + DB_TABLE_SEP + t == e + DB_TABLE_SEP + (u + z) {
      SplitAtSep(d, t, e, u + z);
      SplitAtSep(e, u + z, d, t);
      assert t == u + z;
      if z != [] {
        assert u + DB_TABLE_SEP <= u + z;
        NoSepInside(t, u);
      }
    }
  }

  /** With plain names a removal takes a family of another table only if the two names are the same. */
  lemma PlainNamesAreSafe(p: Path, q: Path, keys: seq<Name>)
    requires PlainPath(p) && PlainPath(q)
    ensures Crosses(p, q, keys) <==>
      Marked(SplitPath(p).db) == Marked(SplitPath(q).db) && Marked(SplitPath(p).table) == Marked(SplitPath(q).table)
  {
    hide Plain, SplitPath, CfName, Marked;
    PlainName(p);
    PlainName(q);
    var d, t := Marked(SplitPath(p).db), Marked(SplitPath(p).table);
    var e, u := Marked(SplitPath(q).db), Marked(SplitPath(q).table);
    CrossesByName(p, q, keys);
    assert e + DB_TABLE_SEP + u == e + DB_TABLE_SEP + (u + []);
    PlainEquals(d, t, e, u, []);
    PlainBegins(d, t, e, u, []);
    forall i | 0 <= i < |keys| && Matches(p, IndexName(q, keys[i])) ensures d == e && t == u {
      var z := CF_INDEX_INFIX + keys[i];
      assert IndexName(q, keys[i]) == e + DB_TABLE_SEP + (u + z);
      PlainEquals(d, t, e, u, z);
      PlainBegins(d, t, e, u, z);
    }
  }
}
