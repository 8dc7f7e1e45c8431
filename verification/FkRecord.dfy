/**
 The record a foreign key is stored as in the engine's catalog, and the two keys it is stored under.
 */
module FkRecord {
  import opened Bytes
  import opened Optional

  const FK_SER_VERSION: byte := 2
  const FK_REC_CHILD: byte := 99
  const FK_REC_PARENT: byte := 112
  const LENGTH_LIMIT: nat := 0x1_0000

  type Text = seq<byte>

  /** fk_catalog_entry */
  datatype Entry = Entry(
    name: Text, childCf: Text, childDb: Text, childTable: Text, childColumns: seq<Text>,
    refDb: Text, refTable: Text, parentCf: Text, refColumns: seq<Text>,
    childIndex: Text, parentIndex: Text,
    parentIsPk: byte, onDelete: byte, onUpdate: byte,
    childNullable: seq<byte>, parentNullable: seq<byte>)

  // ---- fields -----------------------------------------------------------------------------

  /** The record is a row of fields: a text, a list of names, or three bytes. */
  datatype Field = Str(s: Text) | NameList(v: seq<Text>) | Flags(a: byte, b: byte, c: byte)

  datatype Kind = StrKind | NamesKind | FlagsKind

  function KindOf(f: Field): Kind {
    match f
    case Str(_) => StrKind
    case NameList(_) => NamesKind
    case Flags(_, _, _) => FlagsKind
  }

  /** The two-byte length in front of a text or a list; longer ones lose their high bits. */
  function PutLength(n: nat): (s: seq<byte>)
    ensures |s| == 2
  {
    LittleEndian(n, 2)
  }

  function PutStr(s: Text): seq<byte> {
    PutLength(|s|) + s
  }

  function PutAll(v: seq<Text>): seq<byte> {
    if v == [] then [] else PutStr(v[0]) + PutAll(v[1..])
  }

  function PutField(f: Field): seq<byte> {
    match f
    case Str(s) => PutStr(s)
    case NameList(v) => PutLength(|v|) + PutAll(v)
    case Flags(a, b, c) => [a, b, c]
  }

  function PutFields(fs: seq<Field>): seq<byte> {
    if fs == [] then [] else PutField(fs[0]) + PutFields(fs[1..])
  }

  predicate Short(f: Field) {
    match f
    case Str(s) => |s| < LENGTH_LIMIT
    case NameList(v) => |v| < LENGTH_LIMIT && forall i :: 0 <= i < |v| ==> |v[i]| < LENGTH_LIMIT
    case Flags(_, _, _) => true
  }

  function GetStr(s: seq<byte>): Option<(Text, seq<byte>)> {
    if |s| < 2 then None
    else
      var n := FromLittleEndian(s[..2]);
      if |s| - 2 < n then None else Some((s[2..2 + n], s[2 + n..]))
  }

  function GetAll(n: nat, s: seq<byte>): Option<(seq<Text>, seq<byte>)> {
    if n == 0 then Some(([], s))
    else
      match GetStr(s)
      case None => None
      case Some((t, rest)) =>
        match GetAll(n - 1, rest)
        case None => None
        case Some((v, rest')) => Some(([t] + v, rest'))
  }

  function GetField(k: Kind, s: seq<byte>): Option<(Field, seq<byte>)> {
    match k
    case StrKind => (match GetStr(s) case None => None case Some((t, rest)) => Some((Str(t), rest)))
    case NamesKind =>
      if |s| < 2 then None
      else
        (match GetAll(FromLittleEndian(s[..2]), s[2..])
         case None => None
         case Some((v, rest)) => Some((NameList(v), rest)))
    case FlagsKind => if |s| < 3 then None else Some((Flags(s[0], s[1], s[2]), s[3..]))
  }

  function GetFields(ks: seq<Kind>, s: seq<byte>): (r: Option<(seq<Field>, seq<byte>)>)
    ensures r.Some? ==> |r.value.0| == |ks| && forall i :: 0 <= i < |ks| ==> KindOf(r.value.0[i]) == ks[i]
  {
    if ks == [] then Some(([], s))
    else
      match GetField(ks[0], s)
      case None => None
      case Some((f, rest)) =>
        match GetFields(ks[1..], rest)
        case None => None
        case Some((fs, rest')) => Some(([f] + fs, rest'))
  }

  lemma LengthRoundTrip(n: nat)
    requires n < LENGTH_LIMIT
    ensures FromLittleEndian(PutLength(n)) == n
  {
    ConcreteWidths();
    LittleEndianRoundTrip(n, 2);
  }

  lemma GetStrOfPut(s: Text, tail: seq<byte>)
    requires |s| < LENGTH_LIMIT
    ensures GetStr(PutStr(s) + tail) == Some((s, tail))
  {
    hide FromLittleEndian, PutLength;
    LengthRoundTrip(|s|);
    var t := PutStr(s) + tail;
    assert t[..2] == PutLength(|s|) && t[2..2 + |s|] == s && t[2 + |s|..] == tail;
  }

  lemma {:induction false} GetAllOfPut(v: seq<Text>, tail: seq<byte>)
    requires forall i :: 0 <= i < |v| ==> |v[i]| < LENGTH_LIMIT
    ensures GetAll(|v|, PutAll(v) + tail) == Some((v, tail))
  {
    hide GetStr, PutStr;
    if v == [] {
      assert PutAll(v) + tail == tail;
    } else {
      var rest := PutAll(v[1..]) + tail;
      assert PutAll(v) + tail == PutStr(v[0]) + rest;
      GetStrOfPut(v[0], rest);
      GetAllOfPut(v[1..], tail);
      assert [v[0]] + v[1..] == v;
    }
  }

  lemma GetFieldOfPut(f: Field, tail: seq<byte>)
    requires Short(f)
    ensures GetField(KindOf(f), PutField(f) + tail) == Some((f, tail))
  {
    hide GetStr, PutStr, GetAll, PutAll, PutLength, FromLittleEndian;
    match f
    case Str(s) => GetStrOfPut(s, tail);
    case NameList(v) =>
      var t := PutField(f) + tail;
      LengthRoundTrip(|v|);
      assert t[..2] == PutLength(|v|) && t[2..] == PutAll(v) + tail;
      GetAllOfPut(v, tail);
    case Flags(a, b, c) =>
      var t := PutField(f) + tail;
      assert t[0] == a && t[1] == b && t[2] == c && t[3..] == tail;
  }

  function Kinds(fs: seq<Field>): seq<Kind> {
    seq(|fs|, i requires 0 <= i < |fs| => KindOf(fs[i]))
  }

  lemma KindsOfTail(fs: seq<Field>)
    ensures |Kinds(fs)| == |fs|
    ensures fs != [] ==> Kinds(fs)[0] == KindOf(fs[0]) && Kinds(fs)[1..] == Kinds(fs[1..])
  {
    hide KindOf;
  }

  lemma {:induction false} GetFieldsOfPut(fs: seq<Field>, tail: seq<byte>)
    requires forall i :: 0 <= i < |fs| ==> Short(fs[i])
    ensures GetFields(Kinds(fs), PutFields(fs) + tail) == Some((fs, tail))
  {
    hide GetField, PutField, Short, KindOf, Kinds;
    KindsOfTail(fs);
    if fs == [] {
      assert PutFields(fs) + tail == tail;
    } else {
      var rest := PutFields(fs[1..]) + tail;
      assert PutFields(fs) + tail == PutField(fs[0]) + rest;
      GetFieldOfPut(fs[0], rest);
      GetFieldsOfPut(fs[1..], tail);
      assert [fs[0]] + fs[1..] == fs;
    }
  }

  // ---- records ----------------------------------------------------------------------------

  const RECORD_KINDS: seq<Kind> := [
    StrKind, StrKind, StrKind, StrKind, NamesKind, StrKind, StrKind, StrKind, NamesKind, StrKind, StrKind,
    FlagsKind, StrKind, StrKind]

  function FieldsOf(e: Entry): (fs: seq<Field>)
    ensures |fs| == 14
  {
    [Str(e.name), Str(e.childCf), Str(e.childDb), Str(e.childTable), NameList(e.childColumns),
     Str(e.refDb), Str(e.refTable), Str(e.parentCf), NameList(e.refColumns), Str(e.childIndex), Str(e.parentIndex),
     Flags(e.parentIsPk, e.onDelete, e.onUpdate), Str(e.childNullable), Str(e.parentNullable)]
  }

  function EntryOf(fs: seq<Field>): Entry
    requires |fs| == 14 && forall i :: 0 <= i < 14 ==> KindOf(fs[i]) == RECORD_KINDS[i]
  {
    assert KindOf(fs[0]) == StrKind && KindOf(fs[1]) == StrKind && KindOf(fs[2]) == StrKind && KindOf(fs[3]) == StrKind;
    assert KindOf(fs[4]) == NamesKind && KindOf(fs[5]) == StrKind && KindOf(fs[6]) == StrKind;
    assert KindOf(fs[7]) == StrKind && KindOf(fs[8]) == NamesKind && KindOf(fs[9]) == StrKind;
    assert KindOf(fs[10]) == StrKind && KindOf(fs[11]) == FlagsKind;
    assert KindOf(fs[12]) == StrKind && KindOf(fs[13]) == StrKind;
    Entry(fs[0].s, fs[1].s, fs[2].s, fs[3].s, fs[4].v, fs[5].s, fs[6].s, fs[7].s, fs[8].v, fs[9].s, fs[10].s,
          fs[11].a, fs[11].b, fs[11].c, fs[12].s, fs[13].s)
  }

  /** fk_serialize */
  function Serialize(e: Entry): seq<byte> {
    [FK_SER_VERSION] + PutFields(FieldsOf(e))
  }

  /** fk_deserialize */
  function Deserialize(s: seq<byte>): Option<Entry> {
    if s == [] || s[0] != FK_SER_VERSION then None
    else
      match GetFields(RECORD_KINDS, s[1..])
      case None => None
      case Some((fs, _)) => Some(EntryOf(fs))
  }

  /** Every length fits its two-byte field. */
  predicate Storable(e: Entry) {
    forall f :: f in FieldsOf(e) ==> Short(f)
  }

  lemma DeserializeOfSerialized(e: Entry, trailing: seq<byte>)
    requires Storable(e)
    ensures Deserialize(Serialize(e) + trailing) == Some(e)
  {
    hide PutFields, GetFields, Short;
    var s, fs := Serialize(e) + trailing, FieldsOf(e);
    assert s[1..] == PutFields(fs) + trailing;
    forall i | 0 <= i < |fs| ensures Short(fs[i]) {
      assert fs[i] in fs;
    }
    KindsOfRecord(e);
    GetFieldsOfPut(fs, trailing);
  }

  lemma KindsOfRecord(e: Entry)
    ensures Kinds(FieldsOf(e)) == RECORD_KINDS
  {}

  // ---- the decoder with its cursor --------------------------------------------------------

  /** fk_get_str */
  method ReadStr(data: seq<byte>, start: nat) returns (ok: bool, pos: nat, t: Text)
    requires start <= |data|
    ensures pos <= |data|
    ensures GetStr(data[start..]) == if ok then Some((t, data[pos..])) else None
  {
    hide FromLittleEndian;
    pos, t := start, [];
    if pos + 2 > |data| { return false, pos, t; }
    TwoBytes(data[pos], data[pos + 1]);
    assert data[start..][..2] == [data[pos], data[pos + 1]];
    var lo: int, hi: int := data[pos], data[pos + 1];
    var n: nat := lo + 256 * hi;
    pos := pos + 2;
    if pos + n > |data| { return false, pos, t; }
    assert data[start..][2..2 + n] == data[pos..pos + n] && data[start..][2 + n..] == data[pos + n..];
    return true, pos + n, data[pos..pos + n];
  }

  lemma TwoBytes(a: byte, b: byte)
    ensures FromLittleEndian([a, b]) == a as int + 256 * b as int
  {
    assert [a, b][1..] == [b] && [b][1..] == [];
    assert FromLittleEndian([b]) == b;
  }

  function Listed(v: seq<Text>, r: Option<(seq<Text>, seq<byte>)>): Option<(seq<Text>, seq<byte>)> {
    match r
    case None => None
    case Some((w, rest)) => Some((v + w, rest))
  }

  lemma ListedStep(v: seq<Text>, t: Text, r: Option<(seq<Text>, seq<byte>)>)
    ensures Listed(v, Listed([t], r)) == Listed(v + [t], r) && Listed([], r) == r
  {
    if r.Some? {
      assert v + ([t] + r.value.0) == v + [t] + r.value.0 && [] + r.value.0 == r.value.0;
    }
  }

  /** The loop of fk_get_names. */
  method ReadAll(n: nat, data: seq<byte>, start: nat) returns (ok: bool, pos: nat, v: seq<Text>)
    requires start <= |data|
    ensures pos <= |data|
    ensures GetAll(n, data[start..]) == if ok then Some((v, data[pos..])) else None
  {
    hide GetStr;
    pos, v := start, [];
    ListedStep([], [], GetAll(n, data[start..]));
    for i := 0 to n
      invariant pos <= |data|
      invariant GetAll(n, data[start..]) == Listed(v, GetAll(n - i, data[pos..]))
    {
      var good, next, t := ReadStr(data, pos);
      if !good { return false, pos, v; }
      ListedStep(v, t, GetAll(n - i - 1, data[next..]));
      v, pos := v + [t], next;
    }
    assert v + [] == v;
    return true, pos, v;
  }

  method ReadField(k: Kind, data: seq<byte>, start: nat) returns (ok: bool, pos: nat, f: Field)
    requires start <= |data|
    ensures pos <= |data|
    ensures GetField(k, data[start..]) == if ok then Some((f, data[pos..])) else None
  {
    hide GetStr, GetAll, FromLittleEndian;
    pos, f := start, Flags(0, 0, 0);
    match k {
      case StrKind =>
        var t;
        ok, pos, t := ReadStr(data, pos);
        f := Str(t);
      case NamesKind =>
        if pos + 2 > |data| { return false, pos, f; }
        TwoBytes(data[pos], data[pos + 1]);
        assert data[start..][..2] == [data[pos], data[pos + 1]] && data[start..][2..] == data[pos + 2..];
        var lo: int, hi: int := data[pos], data[pos + 1];
        var v;
        ok, pos, v := ReadAll(lo + 256 * hi, data, pos + 2);
        f := NameList(v);
      case FlagsKind =>
        if pos + 3 > |data| { return false, pos, f; }
        assert data[start..][3..] == data[pos + 3..];
        return true, pos + 3, Flags(data[pos], data[pos + 1], data[pos + 2]);
    }
  }

  method ReadFields(ks: seq<Kind>, data: seq<byte>, start: nat) returns (ok: bool, pos: nat, fs: seq<Field>)
    requires start <= |data|
    ensures pos <= |data|
    ensures GetFields(ks, data[start..]) == if ok then Some((fs, data[pos..])) else None
  {
    hide GetField;
    pos, fs := start, [];
    assert ks[0..] == ks;
    GatheredNothing(GetFields(ks, data[start..]));
    for i := 0 to |ks|
      invariant pos <= |data|
      invariant GetFields(ks, data[start..]) == Gathered(fs, GetFields(ks[i..], data[pos..]))
    {
      assert ks[i..][0] == ks[i] && ks[i..][1..] == ks[i + 1..];
      var good, next, f := ReadField(ks[i], data, pos);
      if !good { return false, pos, fs; }
      GatheredStep(fs, f, GetFields(ks[i + 1..], data[next..]));
      fs, pos := fs + [f], next;
    }
    assert ks[|ks|..] == [];
    assert fs + [] == fs;
    return true, pos, fs;
  }

  /** fk_deserialize */
  method ReadRecord(data: seq<byte>) returns (r: Option<Entry>)
    ensures r == Deserialize(data)
  {
    hide EntryOf;
    if |data| == 0 || data[0] != FK_SER_VERSION { return None; }
    var ok, pos, fs := ReadFields(RECORD_KINDS, data, 1);
    if !ok { return None; }
    return Some(EntryOf(fs));
  }

  function Gathered(fs: seq<Field>, r: Option<(seq<Field>, seq<byte>)>): Option<(seq<Field>, seq<byte>)> {
    match r
    case None => None
    case Some((gs, rest)) => Some((fs + gs, rest))
  }

  lemma GatheredNothing(r: Option<(seq<Field>, seq<byte>)>)
    ensures Gathered([], r) == r
  {
    if r.Some? {
      assert [] + r.value.0 == r.value.0;
    }
  }

  lemma GatheredStep(fs: seq<Field>, f: Field, r: Option<(seq<Field>, seq<byte>)>)
    ensures Gathered(fs, Gathered([f], r)) == Gathered(fs + [f], r)
  {
    if r.Some? {
      assert fs + ([f] + r.value.0) == fs + [f] + r.value.0;
    }
  }

  // ---- keys -------------------------------------------------------------------------------

  /** fk_child_key */
  function ChildKey(childCf: Text, name: Text): seq<byte> {
    [FK_REC_CHILD] + childCf + [0] + name
  }

  /** fk_parent_key */
  function ParentKey(parentCf: Text, childCf: Text, name: Text): seq<byte> {
    [FK_REC_PARENT] + parentCf + [0] + childCf + [0] + name
  }

  predicate NoNul(s: Text) {
    forall i :: 0 <= i < |s| ==> s[i] != 0
  }

  /** Texts without NUL are separated by the first NUL. */
  lemma {:induction false} SplitAtNul(a: Text, x: seq<byte>, b: Text, y: seq<byte>)
    requires NoNul(a) && NoNul(b)
    ensures a + [0] + x == b + [0] + y <==> a == b && x == y
  {
    var s, t := a + [0] + x, b + [0] + y;
    assert s[|a|] == 0 && t[|b|] == 0;
    assert |a| < |b| ==> t[|a|] == b[|a|];
    assert |b| < |a| ==> s[|b|] == a[|b|];
    if s == t {
      assert |a| == |b|;
      assert s[..|a|] == a && t[..|b|] == b;
      assert s[|a| + 1..] == x && t[|b| + 1..] == y;
    }
  }

  lemma ChildKeysDiffer(c: Text, n: Text, c': Text, n': Text)
    requires NoNul(c) && NoNul(c')
    ensures ChildKey(c, n) == ChildKey(c', n') <==> c == c' && n == n'
  {
    var s, t := ChildKey(c, n), ChildKey(c', n');
    assert s[1..] == c + [0] + n && t[1..] == c' + [0] + n';
    SplitAtNul(c, n, c', n');
  }

  lemma ParentKeysDiffer(p: Text, c: Text, n: Text, p': Text, c': Text, n': Text)
    requires NoNul(p) && NoNul(c) && NoNul(p') && NoNul(c')
    ensures ParentKey(p, c, n) == ParentKey(p', c', n') <==> p == p' && c == c' && n == n'
  {
    var s, t := ParentKey(p, c, n), ParentKey(p', c', n');
    var x, y := c + [0] + n, c' + [0] + n';
    assert s[1..] == p + [0] + x && t[1..] == p' + [0] + y;
    SplitAtNul(p, x, p', y);
    SplitAtNul(c, n, c', n');
  }

  lemma SidesDiffer(c: Text, n: Text, p: Text, c': Text, n': Text)
    ensures ChildKey(c, n) != ParentKey(p, c', n')
    ensures ChildKey(c, n)[0] == FK_REC_CHILD && ParentKey(p, c', n')[0] == FK_REC_PARENT
  {}
}
