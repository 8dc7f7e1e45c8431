/**
 The comparable-key codec (make_comparable_key, invert_key_part, comparable_key_length, the sort-key
 decoders and the covering-read decoders).

 A cell of a key is NULL or the sort image of a field, a byte string of the part's fixed width.
 Encoded keys are proved to sort under memcmp exactly as the tuples of cells do, NULL first in an
 ascending part and last in a descending one, and to decode back to the native field bytes.
 */
module KeyCodec {
  import opened Bytes
  import opened Optional

  const SORT_KEY_NULL: byte := 0
  const SORT_KEY_NOT_NULL: byte := 1

  /** How a field's sort image is made from its native bytes; tidesdb::sort_key::kind. */
  datatype Kind = Integer(isSigned: bool) | Year | Date | CharFixed(packLength: nat, pad: byte) | Undecodable

  datatype KeyPart = KeyPart(nullable: bool, desc: bool, length: nat, kind: Kind)

  datatype Cell = Null | Image(bytes: seq<byte>)

  predicate Fits(part: KeyPart, c: Cell) {
    match c
    case Null => part.nullable
    case Image(b) => |b| == part.length
  }

  /** A row of cells, one per part, each of its part's shape. */
  predicate FitsAll(parts: seq<KeyPart>, cells: seq<Cell>) {
    |cells| == |parts| && forall i :: 0 <= i < |parts| ==> Fits(parts[i], cells[i])
  }

  function Inverted(s: seq<byte>): (r: seq<byte>)
    ensures |r| == |s|
    ensures forall i :: 0 <= i < |s| ==> r[i] == 255 - s[i]
  {
    seq(|s|, i requires 0 <= i < |s| => (255 - s[i]) as byte)
  }

  function Zeros(n: nat): (s: seq<byte>)
    ensures |s| == n && forall i :: 0 <= i < n ==> s[i] == 0
  {
    seq(n, _ => 0)
  }

  /** One part before the inversion of a descending part. */
  function Upright(part: KeyPart, c: Cell): (s: seq<byte>)
    requires Fits(part, c)
    ensures |s| == PartLength(part)
  {
    match c
    case Null => [SORT_KEY_NULL] + Zeros(part.length)
    case Image(b) => if part.nullable then [SORT_KEY_NOT_NULL] + b else b
  }

  function EncodePart(part: KeyPart, c: Cell): (s: seq<byte>)
    requires Fits(part, c)
    ensures |s| == PartLength(part)
  {
    if part.desc then Inverted(Upright(part, c)) else Upright(part, c)
  }

  function PartLength(part: KeyPart): nat {
    (if part.nullable then 1 else 0) + part.length
  }

  /** comparable_key_length */
  function ComparableKeyLength(parts: seq<KeyPart>): nat {
    if parts == [] then 0 else PartLength(parts[0]) + ComparableKeyLength(parts[1..])
  }

  /** The comparable key of a row of cells. */
  function Encode(parts: seq<KeyPart>, cells: seq<Cell>): (s: seq<byte>)
    requires FitsAll(parts, cells)
    ensures |s| == ComparableKeyLength(parts)
  {
    if parts == [] then [] else EncodePart(parts[0], cells[0]) + Encode(parts[1..], cells[1..])
  }

  lemma {:induction false} EncodeSnoc(parts: seq<KeyPart>, cells: seq<Cell>, part: KeyPart, c: Cell)
    requires FitsAll(parts, cells) && Fits(part, c)
    ensures FitsAll(parts + [part], cells + [c])
    ensures Encode(parts + [part], cells + [c]) == Encode(parts, cells) + EncodePart(part, c)
    ensures ComparableKeyLength(parts + [part]) == ComparableKeyLength(parts) + PartLength(part)
  {
    hide EncodePart, PartLength, Fits;
    if parts == [] {
      assert parts + [part] == [part] && cells + [c] == [c];
      assert [part][1..] == [] && [c][1..] == [];
      assert Encode([part], [c]) == EncodePart(part, c) + Encode([], []);
    } else {
      EncodeSnoc(parts[1..], cells[1..], part, c);
      assert (parts + [part])[1..] == parts[1..] + [part];
      assert (cells + [c])[1..] == cells[1..] + [c];
    }
  }

  // ---- order ------------------------------------------------------------------------------

  /** The order of one column: NULL first, then the images, and the other way round when descending. */
  predicate CellLess(part: KeyPart, a: Cell, b: Cell) {
    if part.desc then Below(b, a) else Below(a, b)
  }

  predicate Below(a: Cell, b: Cell) {
    match (a, b)
    case (_, Null) => false
    case (Null, Image(_)) => true
    case (Image(x), Image(y)) => Less(x, y)
  }

  /** Lexicographic order of rows. */
  predicate TupleLess(parts: seq<KeyPart>, a: seq<Cell>, b: seq<Cell>)
    requires |a| == |b| == |parts|
  {
    parts != [] &&
    (CellLess(parts[0], a[0], b[0]) || (a[0] == b[0] && TupleLess(parts[1..], a[1..], b[1..])))
  }

  lemma {:induction false} InvertedReverses(x: seq<byte>, y: seq<byte>)
    requires |x| == |y|
    ensures Less(Inverted(x), Inverted(y)) <==> Less(y, x)
  {
    if x != [] {
      assert Inverted(x)[1..] == Inverted(x[1..]) && Inverted(y)[1..] == Inverted(y[1..]);
      InvertedReverses(x[1..], y[1..]);
    }
  }

  lemma InvertedTwice(x: seq<byte>)
    ensures Inverted(Inverted(x)) == x
  {
  }

  lemma UprightOrder(part: KeyPart, a: Cell, b: Cell)
    requires Fits(part, a) && Fits(part, b)
    ensures Less(Upright(part, a), Upright(part, b)) <==> Below(a, b)
    ensures Upright(part, a) == Upright(part, b) <==> a == b
  {
    var x, y := Upright(part, a), Upright(part, b);
    if part.nullable {
      assert x == x[..1] + x[1..] && y == y[..1] + y[1..];
      LessConcat(x[..1], y[..1], x[1..], y[1..]);
      LessIrreflexive(x[1..]);
      assert a.Image? ==> x[1..] == a.bytes;
      assert b.Image? ==> y[1..] == b.bytes;
    }
  }

  lemma PartOrder(part: KeyPart, a: Cell, b: Cell)
    requires Fits(part, a) && Fits(part, b)
    ensures Less(EncodePart(part, a), EncodePart(part, b)) <==> CellLess(part, a, b)
    ensures EncodePart(part, a) == EncodePart(part, b) <==> a == b
  {
    hide Less, Upright, Below;
    UprightOrder(part, a, b);
    UprightOrder(part, b, a);
    if part.desc {
      InvertedReverses(Upright(part, a), Upright(part, b));
      InvertedTwice(Upright(part, a));
      InvertedTwice(Upright(part, b));
    }
  }

  /** memcmp on comparable keys is exactly the order of the rows, and keys name rows. */
  lemma {:induction false} EncodeOrder(parts: seq<KeyPart>, a: seq<Cell>, b: seq<Cell>)
    requires FitsAll(parts, a) && FitsAll(parts, b)
    ensures Less(Encode(parts, a), Encode(parts, b)) <==> TupleLess(parts, a, b)
    ensures Encode(parts, a) == Encode(parts, b) <==> a == b
  {
    hide Less, EncodePart, CellLess;
    if parts == [] {
      LessIrreflexive([]);
    } else {
      var ha, hb := EncodePart(parts[0], a[0]), EncodePart(parts[0], b[0]);
      var ta, tb := Encode(parts[1..], a[1..]), Encode(parts[1..], b[1..]);
      PartOrder(parts[0], a[0], b[0]);
      EncodeOrder(parts[1..], a[1..], b[1..]);
      LessConcat(ha, hb, ta, tb);
      assert (ha + ta)[..|ha|] == ha && (hb + tb)[..|hb|] == hb;
      assert (ha + ta)[|ha|..] == ta && (hb + tb)[|hb|..] == tb;
      assert a == [a[0]] + a[1..] && b == [b[0]] + b[1..];
    }
  }

  /** A key of the first n parts is a prefix of exactly the full keys that agree on those parts. */
  lemma {:induction false} PrefixKeys(parts: seq<KeyPart>, n: nat, a: seq<Cell>, b: seq<Cell>)
    requires n <= |parts| && FitsAll(parts[..n], a) && FitsAll(parts, b)
    ensures Encode(parts[..n], a) <= Encode(parts, b) <==> a == b[..n]
  {
    hide EncodePart, Less, CellLess, PartLength, Fits;
    if n > 0 {
      var ha, hb := EncodePart(parts[0], a[0]), EncodePart(parts[0], b[0]);
      PartOrder(parts[0], a[0], b[0]);
      assert parts[..n][1..] == parts[1..][..n - 1];
      PrefixKeys(parts[1..], n - 1, a[1..], b[1..]);
      var ta, tb := Encode(parts[1..][..n - 1], a[1..]), Encode(parts[1..], b[1..]);
      assert Encode(parts[..n], a) == ha + ta && Encode(parts, b) == hb + tb;
      PrefixOfConcat(ha, ta, hb, tb);
      assert b[..n][1..] == b[1..][..n - 1];
      assert a == [a[0]] + a[1..] && b[..n] == [b[0]] + b[..n][1..];
    }
  }

  lemma PrefixOfConcat(ha: seq<byte>, ta: seq<byte>, hb: seq<byte>, tb: seq<byte>)
    requires |ha| == |hb|
    ensures ha + ta <= hb + tb <==> ha == hb && ta <= tb
  {
    var a, b := ha + ta, hb + tb;
    assert a[..|ha|] == ha && b[..|hb|] == hb && a[|ha|..] == ta && b[|hb|..] == tb;
    if a <= b {
      assert ha == b[..|a|][..|ha|] == hb;
      assert ta == b[..|a|][|ha|..] == tb[..|ta|];
    }
  }

  // ---- the encoder of the source ----------------------------------------------------------

  /** invert_key_part, in place on a span of the key buffer. */
  method InvertKeyPart(out: array<byte>, start: nat, n: nat)
    requires start + n <= out.Length
    modifies out
    ensures out[start..start + n] == Inverted(old(out[start..start + n]))
    ensures out[..start] == old(out[..start])
  {
    for i := start to start + n
      invariant forall k :: start <= k < i ==> out[k] == 255 - old(out[k])
      invariant forall k :: 0 <= k < out.Length && !(start <= k < i) ==> out[k] == old(out[k])
    {
      out[i] := 255 - out[i];
    }
  }

  /** Copy bytes into the key buffer at a cursor. */
  method Append(out: array<byte>, pos: nat, s: seq<byte>)
    requires pos + |s| <= out.Length
    modifies out
    ensures out[..pos + |s|] == old(out[..pos]) + s
  {
    for i := pos to pos + |s|
      invariant forall k :: pos <= k < i ==> out[k] == s[k - pos]
      invariant forall k :: 0 <= k < pos ==> out[k] == old(out[k])
    {
      out[i] := s[i - pos];
    }
  }

  /** One turn of make_comparable_key's loop. */
  method WritePart(part: KeyPart, c: Cell, out: array<byte>, start: nat) returns (pos: nat)
    requires Fits(part, c) && start + PartLength(part) <= out.Length
    modifies out
    ensures pos == start + PartLength(part)
    ensures out[..pos] == old(out[..start]) + EncodePart(part, c)
  {
    hide Upright;
    pos := WriteUpright(part, c, out, start);
    assert out[start..pos] == out[..pos][start..] && out[..start] == out[..pos][..start];
    if part.desc {
      InvertKeyPart(out, start, pos - start);
    }
    assert out[..pos] == out[..start] + out[start..pos];
  }

  /** The null indicator and the sort image, or the zeros of a NULL. */
  method WriteUpright(part: KeyPart, c: Cell, out: array<byte>, start: nat) returns (pos: nat)
    requires Fits(part, c) && start + PartLength(part) <= out.Length
    modifies out
    ensures pos == start + PartLength(part)
    ensures out[..pos] == old(out[..start]) + Upright(part, c)
  {
    pos := start;
    ghost var before := out[..start];
    if part.nullable {
      var flag := if c.Null? then SORT_KEY_NULL else SORT_KEY_NOT_NULL;
      Append(out, pos, [flag]);
      pos := pos + 1;
      var body := if c.Null? then Zeros(part.length) else c.bytes;
      Append(out, pos, body);
      pos := pos + part.length;
      assert Upright(part, c) == [flag] + body;
      assert before + [flag] + body == before + ([flag] + body);
    } else {
      Append(out, pos, c.bytes);
      pos := pos + part.length;
    }
  }

  /** make_comparable_key for fixed-width parts: the first numParts parts of the row. */
  method MakeComparableKey(parts: seq<KeyPart>, cells: seq<Cell>, numParts: nat, out: array<byte>) returns (pos: nat)
    requires FitsAll(parts, cells) && out.Length >= ComparableKeyLength(parts)
    modifies out
    ensures var n := if numParts < |parts| then numParts else |parts|;
            && FitsAll(parts[..n], cells[..n])
            && pos == ComparableKeyLength(parts[..n]) <= out.Length
            && out[..pos] == Encode(parts[..n], cells[..n])
  {
    hide EncodePart, PartLength;
    pos := 0;
    var p := 0;
    while p < numParts && p < |parts|
      invariant p <= |parts| && p <= numParts
      invariant pos == ComparableKeyLength(parts[..p]) <= out.Length
      invariant out[..pos] == Encode(parts[..p], cells[..p])
    {
      PrefixLength(parts, p);
      EncodeSnoc(parts[..p], cells[..p], parts[p], cells[p]);
      assert parts[..p + 1] == parts[..p] + [parts[p]] && cells[..p + 1] == cells[..p] + [cells[p]];
      pos := WritePart(parts[p], cells[p], out, pos);
      p := p + 1;
    }
  }

  lemma {:induction false} PrefixLength(parts: seq<KeyPart>, p: nat)
    requires p < |parts|
    ensures ComparableKeyLength(parts[..p]) + PartLength(parts[p]) <= ComparableKeyLength(parts)
  {
    if p > 0 {
      assert parts[..p][1..] == parts[1..][..p - 1];
      PrefixLength(parts[1..], p - 1);
    }
  }

  // ---- sort images of fields --------------------------------------------------------------

  function Reversed(s: seq<byte>): (r: seq<byte>)
    ensures |r| == |s|
    ensures forall i :: 0 <= i < |s| ==> r[i] == s[|s| - 1 - i]
  {
    seq(|s|, i requires 0 <= i < |s| => s[|s| - 1 - i])
  }

  /** b ^ 0x80 */
  function FlipSign(b: byte): byte {
    if b >= 128 then b - 128 else b + 128
  }

  /** The sort image of a field's native bytes. */
  function SortImage(kind: Kind, native: seq<byte>): seq<byte> {
    match kind
    case Integer(isSigned) =>
      var r := Reversed(native);
      if isSigned && r != [] then [FlipSign(r[0])] + r[1..] else r
    case Date => Reversed(native)
    case _ => native
  }

  /** The number an integer field's native little-endian bytes stand for. */
  function IntegerValue(isSigned: bool, native: seq<byte>): int {
    var u := FromLittleEndian(native);
    if isSigned && native != [] && native[|native| - 1] >= 128 then u - Pow256(|native|) else u
  }

  lemma {:induction false} FromBigEndianOfReversed(s: seq<byte>)
    ensures FromBigEndian(Reversed(s)) == FromLittleEndian(s)
  {
    if s != [] {
      var r := Reversed(s);
      assert r[..|r| - 1] == Reversed(s[1..]);
      FromBigEndianOfReversed(s[1..]);
    }
  }

  lemma {:induction false} FromBigEndianTop(b: byte, s: seq<byte>)
    ensures FromBigEndian([b] + s) == b * Pow256(|s|) + FromBigEndian(s)
  {
    var t := [b] + s;
    if s == [] {
      assert t[..0] == [];
    } else {
      assert t[..|t| - 1] == [b] + s[..|s| - 1];
      FromBigEndianTop(b, s[..|s| - 1]);
    }
  }

  lemma LessByNumber(x: seq<byte>, y: seq<byte>)
    requires |x| == |y|
    ensures Less(x, y) <==> FromBigEndian(x) < FromBigEndian(y)
  {
    FromBigEndianBound(x);
    FromBigEndianBound(y);
    BigEndianOrder(FromBigEndian(x), FromBigEndian(y), |x|);
  }

  /** Flipping the sign bit shifts the signed range up to start at zero. */
  lemma IntegerImageNumber(isSigned: bool, native: seq<byte>)
    requires native != []
    ensures FromBigEndian(SortImage(Integer(isSigned), native))
         == IntegerValue(isSigned, native) + (if isSigned then 128 * Pow256(|native| - 1) else 0)
  {
    hide FromBigEndian, FromLittleEndian, Pow256;
    var r := Reversed(native);
    FromBigEndianOfReversed(native);
    if isSigned {
      FromBigEndianFlip(r);
      Pow256Top(|native| - 1);
    }
  }

  lemma Pow256Top(n: nat)
    ensures Pow256(n + 1) == 256 * Pow256(n)
  {}

  lemma FromBigEndianFlip(r: seq<byte>)
    requires r != []
    ensures FromBigEndian([FlipSign(r[0])] + r[1..])
         == FromBigEndian(r) + (if r[0] >= 128 then 0 - 128 * Pow256(|r| - 1) else 128 * Pow256(|r| - 1))
  {
    hide FromBigEndian, Pow256;
    assert r == [r[0]] + r[1..];
    FromBigEndianTop(r[0], r[1..]);
    FromBigEndianTop(FlipSign(r[0]), r[1..]);
    Distribute(r[0], Pow256(|r| - 1));
  }

  lemma Distribute(b: int, p: int)
    ensures (b - 128) * p == b * p - 128 * p
    ensures (b + 128) * p == b * p + 128 * p
  {}

  /** Integer columns: the images sort as the signed or unsigned numbers do. */
  lemma IntegerImageOrder(isSigned: bool, a: seq<byte>, b: seq<byte>)
    requires |a| == |b| > 0
    ensures Less(SortImage(Integer(isSigned), a), SortImage(Integer(isSigned), b)) <==>
              IntegerValue(isSigned, a) < IntegerValue(isSigned, b)
  {
    hide IntegerValue, FromBigEndian, Less;
    IntegerImageNumber(isSigned, a);
    IntegerImageNumber(isSigned, b);
    LessByNumber(SortImage(Integer(isSigned), a), SortImage(Integer(isSigned), b));
  }

  // ---- decoding ---------------------------------------------------------------------------

  /** tidesdb::sort_key::decode_part as a function. */
  function DecodePart(kind: Kind, src: seq<byte>): Option<seq<byte>> {
    match kind
    case Integer(isSigned) =>
      if |src| == 0 || (|src| > 4 && |src| != 8) then None
      else
        var r := Reversed(src);
        Some(if isSigned then r[..|r| - 1] + [FlipSign(r[|r| - 1])] else r)
    case Year => if |src| < 1 then None else Some(src[..1])
    case Date => if |src| != 3 then None else Some(Reversed(src))
    case CharFixed(packLength, pad) =>
      if |src| < packLength then Some(src + seq(packLength - |src|, _ => pad)) else Some(src[..packLength])
    case Undecodable => None
  }

  /** A native value fills the part, and the part's kind is one that decodes. */
  predicate Decodable(part: KeyPart, native: seq<byte>) {
    && |native| == part.length
    && match part.kind
       case Integer(_) => part.length in {1, 2, 3, 4, 8}
       case Year => part.length == 1
       case Date => part.length == 3
       case CharFixed(packLength, _) => part.length == packLength
       case Undecodable => false
  }

  lemma DecodePartOfImage(part: KeyPart, native: seq<byte>)
    requires Decodable(part, native)
    ensures |SortImage(part.kind, native)| == part.length
    ensures DecodePart(part.kind, SortImage(part.kind, native)) == Some(native)
  {
    var img := SortImage(part.kind, native);
    match part.kind
    case Integer(isSigned) =>
      var r := Reversed(img);
      assert r[..|r| - 1] == native[..|native| - 1];
      assert native == native[..|native| - 1] + [native[|native| - 1]];
      assert Reversed(Reversed(native)) == native;
    case Date =>
      assert Reversed(Reversed(native)) == native;
    case _ =>
      assert native[..|native|] == native;
      assert native + [] == native;
  }

  /** What a covering read leaves in the record for one part. */
  datatype Decoded = WasNull | Value(native: seq<byte>) | NotRead

  /** keyread_decode_key_parts: the decoded parts and the bytes behind them, or failure. */
  function DecodeKey(parts: seq<KeyPart>, read: seq<bool>, s: seq<byte>): Option<(seq<Decoded>, seq<byte>)>
    requires |read| == |parts|
    decreases parts
  {
    if parts == [] then Some(([], s))
    else
      match DecodeOne(parts[0], read[0], s)
      case None => None
      case Some((d, rest)) =>
        match DecodeKey(parts[1..], read[1..], rest)
        case None => None
        case Some((ds, rest')) => Some(([d] + ds, rest'))
  }

  /** One turn of its loop. */
  function DecodeOne(part: KeyPart, read: bool, s: seq<byte>): Option<(Decoded, seq<byte>)> {
    if part.nullable && s == [] then None
    else if part.nullable && (if part.desc then 255 - s[0] else s[0]) == 0 then
      if |s| < 1 + part.length then None else Some((WasNull, s[1 + part.length..]))
    else
      var t := if part.nullable then s[1..] else s;
      if |t| < part.length then None
      else if !read then Some((NotRead, t[part.length..]))
      else
        match DecodePart(part.kind, if part.desc then Inverted(t[..part.length]) else t[..part.length])
        case None => None
        case Some(native) => Some((Value(native), t[part.length..]))
  }

  /** A row of native values, NULL or bytes. */
  type Native = Option<seq<byte>>

  predicate NativeFits(part: KeyPart, v: Native) {
    match v
    case None => part.nullable
    case Some(native) => Decodable(part, native)
  }

  predicate NativeRow(parts: seq<KeyPart>, row: seq<Native>) {
    |row| == |parts| && forall i :: 0 <= i < |parts| ==> NativeFits(parts[i], row[i])
  }

  function CellOf(part: KeyPart, v: Native): (c: Cell)
    requires NativeFits(part, v)
    ensures Fits(part, c)
  {
    match v
    case None => Null
    case Some(native) => DecodePartOfImage(part, native); Image(SortImage(part.kind, native))
  }

  function CellsOf(parts: seq<KeyPart>, row: seq<Native>): (cells: seq<Cell>)
    requires NativeRow(parts, row)
    ensures FitsAll(parts, cells)
  {
    seq(|parts|, i requires 0 <= i < |parts| => CellOf(parts[i], row[i]))
  }

  function Expected(v: Native, read: bool): Decoded {
    match v
    case None => WasNull
    case Some(native) => if read then Value(native) else NotRead
  }

  function ExpectedRow(row: seq<Native>, read: seq<bool>): (r: seq<Decoded>)
    requires |read| == |row|
    ensures |r| == |row|
  {
    seq(|row|, i requires 0 <= i < |row| => Expected(row[i], read[i]))
  }

  lemma DecodeOneOfEncoded(part: KeyPart, v: Native, read: bool, tail: seq<byte>)
    requires NativeFits(part, v)
    ensures DecodeOne(part, read, EncodePart(part, CellOf(part, v)) + tail) == Some((Expected(v, read), tail))
  {
    hide DecodePart, SortImage, Decodable;
    var c := CellOf(part, v);
    var e := EncodePart(part, c);
    var s := e + tail;
    assert s[..|e|] == e && s[|e|..] == tail;
    match v
    case None =>
      assert s[0] == e[0];
      assert s[1 + part.length..] == tail;
    case Some(native) =>
      DecodePartOfImage(part, native);
      var img := c.bytes;
      var t := if part.nullable then s[1..] else s;
      assert t[part.length..] == tail;
      if part.desc {
        assert t[..part.length] == Inverted(img);
        InvertedTwice(img);
      } else {
        assert t[..part.length] == img;
      }
  }

  /**
   Decoding a comparable key gives back every native value and NULL, reads nothing it was not asked
   for, and leaves the cursor exactly behind the last part.
   */
  lemma {:induction false} DecodeKeyOfEncoded(parts: seq<KeyPart>, row: seq<Native>, read: seq<bool>, tail: seq<byte>)
    requires NativeRow(parts, row) && |read| == |parts|
    ensures DecodeKey(parts, read, Encode(parts, CellsOf(parts, row)) + tail) == Some((ExpectedRow(row, read), tail))
  {
    hide DecodeOne, EncodePart, CellOf, Expected;
    if parts == [] {
      assert Encode(parts, CellsOf(parts, row)) + tail == tail;
    } else {
      var cells := CellsOf(parts, row);
      assert cells[1..] == CellsOf(parts[1..], row[1..]);
      var rest := Encode(parts[1..], cells[1..]) + tail;
      assert Encode(parts, cells) + tail == EncodePart(parts[0], cells[0]) + rest;
      DecodeOneOfEncoded(parts[0], row[0], read[0], rest);
      DecodeKeyOfEncoded(parts[1..], row[1..], read[1..], tail);
      assert ExpectedRow(row, read) == [Expected(row[0], read[0])] + ExpectedRow(row[1..], read[1..]);
    }
  }

  // ---- the decoders of the source ---------------------------------------------------------

  /** tidesdb::sort_key::decode_part, writing into the record. */
  method DecodePartInto(kind: Kind, src: seq<byte>, to: array<byte>) returns (ok: bool)
    requires to.Length >= |src| && (kind.CharFixed? ==> to.Length >= kind.packLength)
    modifies to
    ensures ok <==> DecodePart(kind, src).Some?
    ensures ok ==> var native := DecodePart(kind, src).value;
                   |native| <= to.Length && to[..|native|] == native
  {
    match kind {
      case Integer(isSigned) =>
        if |src| == 0 || (|src| > 4 && |src| != 8) { return false; }
        ReverseInto(src, to);
        if isSigned {
          to[|src| - 1] := FlipSign(to[|src| - 1]);
        }
        assert to[..|src|] == to[..|src| - 1] + [to[|src| - 1]];
        return true;
      case Year =>
        if |src| < 1 { return false; }
        to[0] := src[0];
        return true;
      case Date =>
        if |src| != 3 { return false; }
        ReverseInto(src, to);
        return true;
      case CharFixed(packLength, pad) =>
        var copy := if |src| < packLength then |src| else packLength;
        Append(to, 0, src[..copy]);
        if copy < packLength {
          Append(to, copy, seq(packLength - copy, _ => pad));
        }
        return true;
      case Undecodable =>
        return false;
    }
  }

  method ReverseInto(src: seq<byte>, to: array<byte>)
    requires to.Length >= |src|
    modifies to
    ensures to[..|src|] == Reversed(src)
  {
    for i := 0 to |src|
      invariant forall k :: 0 <= k < i ==> to[k] == src[|src| - 1 - k]
    {
      to[i] := src[|src| - 1 - i];
    }
  }

  /** One turn of the decoding loop: where the cursor goes and what the part holds. */
  method DecodeNextPart(part: KeyPart, read: bool, key: seq<byte>, start: nat)
    returns (ok: bool, pos: nat, d: Decoded)
    requires start <= |key|
    ensures pos <= |key|
    ensures DecodeOne(part, read, key[start..]) == if ok then Some((d, key[pos..])) else None
  {
    hide DecodePart;
    pos, d := start, NotRead;
    ghost var s := key[start..];
    if part.nullable {
      if pos >= |key| { return false, pos, d; }
      var nb := if part.desc then 255 - key[pos] else key[pos];
      pos := pos + 1;
      if nb == 0 {
        if pos + part.length > |key| { return false, pos, d; }
        assert s[1 + part.length..] == key[pos + part.length..];
        return true, pos + part.length, WasNull;
      }
    }
    if pos + part.length > |key| { return false, pos, d; }
    ghost var t := if part.nullable then s[1..] else s;
    assert t == key[pos..] && t[..part.length] == key[pos..pos + part.length];
    assert t[part.length..] == key[pos + part.length..];
    if read {
      var dp := key[pos..pos + part.length];
      if part.desc { dp := Inverted(dp); }
      var native := DecodePart(part.kind, dp);
      if native.None? { return false, pos, d; }
      d := Value(native.value);
    }
    return true, pos + part.length, d;
  }

  /** keyread_decode_key_parts and, with every part read, icp_decode_key_parts. */
  method DecodeKeyParts(parts: seq<KeyPart>, read: seq<bool>, key: seq<byte>, start: nat)
    returns (ok: bool, pos: nat, out: seq<Decoded>)
    requires |read| == |parts| && start <= |key|
    ensures pos <= |key|
    ensures DecodeKey(parts, read, key[start..]) == if ok then Some((out, key[pos..])) else None
  {
    hide DecodeOne;
    pos, out := start, [];
    assert parts[0..] == parts && read[0..] == read;
    PrependNothing(DecodeKey(parts, read, key[start..]));
    for p := 0 to |parts|
      invariant pos <= |key|
      invariant DecodeKey(parts, read, key[start..]) == Prepend(out, DecodeKey(parts[p..], read[p..], key[pos..]))
    {
      assert parts[p..][1..] == parts[p + 1..] && read[p..][1..] == read[p + 1..];
      var good, next, d := DecodeNextPart(parts[p], read[p], key, pos);
      if !good { return false, pos, out; }
      pos := next;
      PrependStep(out, d, DecodeKey(parts[p + 1..], read[p + 1..], key[pos..]));
      out := out + [d];
    }
    assert parts[|parts|..] == [] && read[|parts|..] == [];
    assert out + [] == out;
    return true, pos, out;
  }

  function Prepend(ds: seq<Decoded>, r: Option<(seq<Decoded>, seq<byte>)>): Option<(seq<Decoded>, seq<byte>)> {
    match r
    case None => None
    case Some((es, rest)) => Some((ds + es, rest))
  }

  lemma PrependNothing(r: Option<(seq<Decoded>, seq<byte>)>)
    ensures Prepend([], r) == r
  {
    if r.Some? {
      assert [] + r.value.0 == r.value.0;
    }
  }

  lemma PrependStep(ds: seq<Decoded>, d: Decoded, r: Option<(seq<Decoded>, seq<byte>)>)
    ensures Prepend(ds, Prepend([d], r)) == Prepend(ds + [d], r)
  {
    if r.Some? {
      assert ds + ([d] + r.value.0) == ds + [d] + r.value.0;
    }
  }
}
