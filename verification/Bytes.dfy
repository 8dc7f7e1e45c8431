/**
 Byte strings in the order the key-value store keeps its keys: memcmp first, then length.
 */
module Bytes {

  type byte = b: int | 0 <= b < 256

  /** a sorts strictly before b. */
  predicate Less(a: seq<byte>, b: seq<byte>) {
    if b == [] then false
    else if a == [] then true
    else if a[0] != b[0] then a[0] < b[0]
    else Less(a[1..], b[1..])
  }

  predicate AtMost(a: seq<byte>, b: seq<byte>) {
    a == b || Less(a, b)
  }

  lemma {:induction false} LessIrreflexive(a: seq<byte>)
    ensures !Less(a, a)
  {
    if a != [] {
      LessIrreflexive(a[1..]);
    }
  }

  lemma {:induction false} LessTrichotomy(a: seq<byte>, b: seq<byte>)
    ensures Less(a, b) || a == b || Less(b, a)
    ensures !(Less(a, b) && Less(b, a))
  {
    if a != [] && b != [] && a[0] == b[0] {
      LessTrichotomy(a[1..], b[1..]);
      assert a == [a[0]] + a[1..] && b == [b[0]] + b[1..];
    }
  }

  lemma {:induction false} LessTransitive(a: seq<byte>, b: seq<byte>, c: seq<byte>)
    requires Less(a, b) && Less(b, c)
    ensures Less(a, c)
  {
    if a != [] && a[0] == b[0] == c[0] {
      LessTransitive(a[1..], b[1..], c[1..]);
    }
  }

  /** Order of concatenations whose first halves have the same length: compare those first. */
  lemma {:induction false} LessConcat(a: seq<byte>, b: seq<byte>, x: seq<byte>, y: seq<byte>)
    requires |a| == |b|
    ensures Less(a + x, b + y) <==> Less(a, b) || (a == b && Less(x, y))
  {
    if a == [] {
      assert a + x == x && b + y == y;
    } else {
      assert (a + x)[1..] == a[1..] + x && (b + y)[1..] == b[1..] + y;
      LessConcat(a[1..], b[1..], x, y);
      assert a == [a[0]] + a[1..] && b == [b[0]] + b[1..];
    }
  }

  /** Every proper extension of a string sorts after it. */
  lemma PrefixSortsFirst(a: seq<byte>, x: seq<byte>)
    ensures AtMost(a, a + x)
  {
    LessConcat(a, a, [], x);
    assert a + [] == a;
    if x == [] {
      assert a + x == a;
    }
  }

  /** Strings that begin with p form one contiguous block that starts at p. */
  lemma PrefixBlock(p: seq<byte>, a: seq<byte>, b: seq<byte>)
    requires AtMost(p, a) && AtMost(a, b) && p <= b
    ensures p <= a
  {
    if |a| < |p| {
      LessConcat(a, b[..|a|], [], b[|a|..]);
      LessConcat(p[..|a|], a, p[|a|..], []);
      assert b == b[..|a|] + b[|a|..] && p == p[..|a|] + p[|a|..];
      assert a + [] == a;
      assert p[..|a|] == b[..|a|];
      LessTrichotomy(p[..|a|], a);
    } else {
      var h, t := a[..|p|], a[|p|..];
      assert a == h + t && b == p + b[|p|..] && p + [] == p;
      LessConcat(h, p, t, b[|p|..]);
      LessConcat(p, h, [], t);
      LessTrichotomy(p, h);
    }
  }

  // ---- fixed-width integers ---------------------------------------------------------------

  function Pow256(n: nat): (p: nat)
    ensures p > 0
  {
    if n == 0 then 1 else 256 * Pow256(n - 1)
  }

  /** The n low bytes of v, most significant first. */
  function BigEndian(v: nat, n: nat): (s: seq<byte>)
    ensures |s| == n
    decreases n
  {
    if n == 0 then [] else BigEndian(v / 256, n - 1) + [v % 256]
  }

  function FromBigEndian(s: seq<byte>): nat {
    if s == [] then 0 else 256 * FromBigEndian(s[..|s| - 1]) + s[|s| - 1]
  }

  lemma {:induction false} BigEndianRoundTrip(v: nat, n: nat)
    requires v < Pow256(n)
    ensures FromBigEndian(BigEndian(v, n)) == v
    decreases n
  {
    if n > 0 {
      BigEndianRoundTrip(v / 256, n - 1);
      assert BigEndian(v, n)[..n - 1] == BigEndian(v / 256, n - 1);
    }
  }

  lemma {:induction false} FromBigEndianBound(s: seq<byte>)
    ensures FromBigEndian(s) < Pow256(|s|)
    ensures BigEndian(FromBigEndian(s), |s|) == s
  {
    if s != [] {
      FromBigEndianBound(s[..|s| - 1]);
      assert s == s[..|s| - 1] + [s[|s| - 1]];
    }
  }

  /** Big-endian bytes of one width sort as the numbers do. */
  lemma {:induction false} BigEndianOrder(v: nat, w: nat, n: nat)
    requires v < Pow256(n) && w < Pow256(n)
    ensures Less(BigEndian(v, n), BigEndian(w, n)) <==> v < w
    decreases n
  {
    if n > 0 {
      BigEndianOrder(v / 256, w / 256, n - 1);
      LessConcat(BigEndian(v / 256, n - 1), BigEndian(w / 256, n - 1), [v % 256], [w % 256]);
      if BigEndian(v / 256, n - 1) == BigEndian(w / 256, n - 1) {
        BigEndianRoundTrip(v / 256, n - 1);
        BigEndianRoundTrip(w / 256, n - 1);
      }
    }
  }

  /** The n low bytes of v, least significant first. */
  function LittleEndian(v: nat, n: nat): (s: seq<byte>)
    ensures |s| == n
    decreases n
  {
    if n == 0 then [] else [v % 256] + LittleEndian(v / 256, n - 1)
  }

  function FromLittleEndian(s: seq<byte>): nat {
    if s == [] then 0 else s[0] + 256 * FromLittleEndian(s[1..])
  }

  lemma {:induction false} LittleEndianRoundTrip(v: nat, n: nat)
    requires v < Pow256(n)
    ensures FromLittleEndian(LittleEndian(v, n)) == v
    decreases n
  {
    if n > 0 {
      LittleEndianRoundTrip(v / 256, n - 1);
      assert LittleEndian(v, n)[1..] == LittleEndian(v / 256, n - 1);
    }
  }

  lemma {:induction false} FromLittleEndianBound(s: seq<byte>)
    ensures FromLittleEndian(s) < Pow256(|s|)
    ensures LittleEndian(FromLittleEndian(s), |s|) == s
  {
    if s != [] {
      FromLittleEndianBound(s[1..]);
      assert s == [s[0]] + s[1..];
    }
  }

  lemma ConcreteWidths()
    ensures Pow256(1) == 0x100 && Pow256(2) == 0x1_0000 && Pow256(4) == 0x1_0000_0000
    ensures Pow256(8) == 0x1_0000_0000_0000_0000
  {
    assert Pow256(4) == 0x1_0000_0000;
  }
}
