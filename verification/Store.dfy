/**
 A column family of the store as the set of its keys, with the two moves an iterator makes: seek to
 the first key at or after a target, and step to the next key.
 */
module Store {
  import opened Bytes

  /** k is where a seek to target lands. */
  ghost predicate IsFirstFrom(keys: set<seq<byte>>, target: seq<byte>, k: seq<byte>) {
    k in keys && !Less(k, target) && forall j :: j in keys && !Less(j, target) ==> !Less(j, k)
  }

  /** k is where one step from key at leads. */
  ghost predicate IsNextAfter(keys: set<seq<byte>>, at: seq<byte>, k: seq<byte>) {
    k in keys && Less(at, k) && forall j :: j in keys && Less(at, j) ==> !Less(j, k)
  }

  method Seek(keys: set<seq<byte>>, target: seq<byte>) returns (found: bool, k: seq<byte>)
    ensures found ==> IsFirstFrom(keys, target, k)
    ensures !found ==> forall j :: j in keys ==> Less(j, target)
  {
    found, k := false, [];
    var rest := keys;
    while rest != {}
      invariant rest <= keys
      invariant found ==> k in keys && !Less(k, target)
      invariant found ==> forall j :: j in keys - rest && !Less(j, target) ==> !Less(j, k)
      invariant !found ==> forall j :: j in keys - rest ==> Less(j, target)
      decreases |rest|
    {
      var c :| c in rest;
      rest := rest - {c};
      ghost var before := k;
      if !Less(c, target) && (!found || Less(c, k)) {
        forall j | j in keys - rest && !Less(j, target) ensures !Less(j, c) {
          LessIrreflexive(c);
          if j != c && Less(j, c) && found { LessTransitive(j, c, before); }
        }
        found, k := true, c;
      }
    }
  }

  method Next(keys: set<seq<byte>>, at: seq<byte>) returns (found: bool, k: seq<byte>)
    ensures found ==> IsNextAfter(keys, at, k)
    ensures !found ==> forall j :: j in keys ==> !Less(at, j)
  {
    var later := set j | j in keys && Less(at, j);
    found, k := Seek(later, []);
    assert forall j :: j in keys && Less(at, j) ==> j in later;
  }

  /** Some key begins with p exactly when the key a seek to p lands on does. */
  lemma SeekFindsPrefix(keys: set<seq<byte>>, p: seq<byte>, k: seq<byte>, j: seq<byte>)
    requires IsFirstFrom(keys, p, k)
    requires j in keys && p <= j
    ensures p <= k
  {
    PrefixSortsFirst(p, j[|p|..]);
    assert j == p + j[|p|..];
    LessIrreflexive(p);
    LessTrichotomy(p, j);
    LessTrichotomy(p, k);
    LessTrichotomy(k, j);
    PrefixBlock(p, k, j);
  }
}
