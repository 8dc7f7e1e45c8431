/**
 The record a pending schema change is written as, and the key it is stored under.
 */
module DdlLogRecord {
  import opened Bytes
  import opened Optional

  const LEN_PREFIX: nat := 4
  const MAX_FIELD_LEN: nat := 65535
  const FORMAT_VERSION: byte := 1
  const INTENT_DROP: byte := 1
  const INTENT_CREATE: byte := 2
  const KEY_LEN: nat := 16
  const UINT64_LIMIT: nat := 0x1_0000_0000_0000_0000

  datatype Intent = Drop | Create

  datatype Record = Record(what: Intent, path: seq<byte>, db: seq<byte>, table: seq<byte>)

  predicate Encodable(r: Record) {
    |r.path| <= MAX_FIELD_LEN && |r.db| <= MAX_FIELD_LEN && |r.table| <= MAX_FIELD_LEN
  }

  function IntentByte(i: Intent): byte {
    if i.Drop? then INTENT_DROP else INTENT_CREATE
  }

  function PutStr(s: seq<byte>): seq<byte> {
    BigEndian(|s|, LEN_PREFIX) + s
  }

  /** encode_record */
  function EncodeRecord(r: Record): Option<seq<byte>> {
    if !Encodable(r) then None
    else Some([FORMAT_VERSION, IntentByte(r.what)] + PutStr(r.path) + PutStr(r.db) + PutStr(r.table))
  }

  /** A length-prefixed string at the front, and what follows it. */
  function GetStr(s: seq<byte>): Option<(seq<byte>, seq<byte>)> {
    if |s| < LEN_PREFIX then None
    else
      var n := FromBigEndian(s[..LEN_PREFIX]);
      if n > MAX_FIELD_LEN || |s| - LEN_PREFIX < n then None
      else Some((s[LEN_PREFIX..LEN_PREFIX + n], s[LEN_PREFIX + n..]))
  }

  /** decode_record */
  function DecodeRecord(s: seq<byte>): Option<Record> {
    if |s| < 2 || s[0] != FORMAT_VERSION || (s[1] != INTENT_DROP && s[1] != INTENT_CREATE) then None
    else
      match GetStr(s[2..])
      case None => None
      case Some((path, t)) =>
        match GetStr(t)
        case None => None
        case Some((db, u)) =>
          match GetStr(u)
          case None => None
          case Some((table, _)) =>
            if path == [] then None
            else Some(Record(if s[1] == INTENT_DROP then Drop else Create, path, db, table))
  }

  lemma GetStrOfPut(s: seq<byte>, tail: seq<byte>)
    requires |s| <= MAX_FIELD_LEN
    ensures GetStr(PutStr(s) + tail) == Some((s, tail))
  {
    hide BigEndian, FromBigEndian;
    ConcreteWidths();
    BigEndianRoundTrip(|s|, LEN_PREFIX);
    var t := PutStr(s) + tail;
    assert t[..4] == BigEndian(|s|, LEN_PREFIX);
    assert t[4..4 + |s|] == s && t[4 + |s|..] == tail;
  }

  /** Decoding an encoded record gives it back exactly when it names a path; without one it is refused. */
  lemma DecodeOfEncoded(r: Record, trailing: seq<byte>)
    requires Encodable(r)
    ensures DecodeRecord(EncodeRecord(r).value + trailing) == if r.path == [] then None else Some(r)
  {
    hide GetStr, PutStr;
    var s := EncodeRecord(r).value + trailing;
    var u := PutStr(r.table) + trailing;
    var t := PutStr(r.db) + u;
    assert s[2..] == PutStr(r.path) + t;
    GetStrOfPut(r.path, t);
    GetStrOfPut(r.db, u);
    GetStrOfPut(r.table, trailing);
  }

  /** get_str: one string from the cursor on. */
  method ReadStr(data: seq<byte>, start: nat) returns (ok: bool, pos: nat, s: seq<byte>)
    requires start <= |data|
    ensures pos <= |data|
    ensures GetStr(data[start..]) == if ok then Some((s, data[pos..])) else None
  {
    hide FromBigEndian;
    pos, s := start, [];
    if |data| - pos < LEN_PREFIX { return false, pos, s; }
    var n := 0;
    ghost var head := data[start..][..LEN_PREFIX];
    assert head[..0] == [];
    FromBigEndianEmpty();
    for i := 0 to 4
      invariant n == FromBigEndian(head[..i])
    {
      FromBigEndianSnoc(head[..i], head[i]);
      assert head[..i + 1] == head[..i] + [head[i]];
      n := n * 256 + data[pos + i];
    }
    assert head[..4] == head;
    pos := pos + LEN_PREFIX;
    if n > MAX_FIELD_LEN { return false, pos, s; }
    if |data| - pos < n { return false, pos, s; }
    s := data[pos..pos + n];
    assert data[start..][4..4 + n] == s && data[start..][4 + n..] == data[pos + n..];
    return true, pos + n, s;
  }

  lemma FromBigEndianEmpty()
    ensures FromBigEndian([]) == 0
  {}

  lemma FromBigEndianSnoc(s: seq<byte>, b: byte)
    ensures FromBigEndian(s + [b]) == 256 * FromBigEndian(s) + b
  {
    assert (s + [b])[..|s|] == s;
  }

  /** decode_record with its cursor. */
  method ReadRecord(data: seq<byte>) returns (r: Option<Record>)
    ensures r == DecodeRecord(data)
  {
    hide GetStr;
    if |data| < 2 || data[0] != FORMAT_VERSION { return None; }
    var what := data[1];
    if what != INTENT_DROP && what != INTENT_CREATE { return None; }
    var ok, pos, path := ReadStr(data, 2);
    if !ok { return None; }
    var db, table;
    ok, pos, db := ReadStr(data, pos);
    if !ok { return None; }
    ok, pos, table := ReadStr(data, pos);
    if !ok { return None; }
    if path == [] { return None; }
    return Some(Record(if what == INTENT_DROP then Drop else Create, path, db, table));
  }

  // ---- keys -------------------------------------------------------------------------------

  /** encode_key */
  function EncodeKey(boot: nat, sequence: nat): (k: seq<byte>)
    ensures |k| == KEY_LEN
  {
    BigEndian(boot, 8) + BigEndian(sequence, 8)
  }

  /** decode_key_boot_id */
  function DecodeKeyBootId(k: seq<byte>): Option<nat> {
    if |k| != KEY_LEN then None else Some(FromBigEndian(k[..8]))
  }

  /** A key tells the run that wrote it, and within a run keys are told apart by their number. */
  lemma KeysNameRecords(b: nat, s: nat, c: nat, t: nat)
    requires b < UINT64_LIMIT && s < UINT64_LIMIT && c < UINT64_LIMIT && t < UINT64_LIMIT
    ensures DecodeKeyBootId(EncodeKey(b, s)) == Some(b)
    ensures EncodeKey(b, s) == EncodeKey(c, t) <==> b == c && s == t
  {
    hide BigEndian, FromBigEndian;
    ConcreteWidths();
    BigEndianRoundTrip(b, 8);
    BigEndianRoundTrip(c, 8);
    BigEndianRoundTrip(s, 8);
    BigEndianRoundTrip(t, 8);
    var x, y := EncodeKey(b, s), EncodeKey(c, t);
    assert x[..8] == BigEndian(b, 8) && x[8..] == BigEndian(s, 8);
    assert y[..8] == BigEndian(c, 8) && y[8..] == BigEndian(t, 8);
  }
}
